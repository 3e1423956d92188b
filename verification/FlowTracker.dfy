// The generated C of the two flow trackers: parser, key, lookup and create on miss, and
// emit, on a packet buffer that is changed in place.

module FlowTracker {
  import opened Wrappers
  import opened Bytes
  import opened WireFormat
  import opened HeaderStructs
  import opened Ipv6Structs
  import opened FlowTrackerP4
  import opened FlowTable
  import opened TrafficControl

  /** struct ipv4_t in one program, struct ipv6_t in the other */
  datatype NetT = Struct4(h4: Ipv4T) | Struct6(h6: Ipv6T)

  function NoNet(f: Family): NetT {
    if f.Inet4? then Struct4(NoIpv4) else Struct6(NoIpv6)
  }

  predicate NetValid(n: NetT) {
    match n
    case Struct4(h) => h.valid
    case Struct6(h) => h.valid
  }

  predicate NetInRange(f: Family, n: NetT) {
    match n
    case Struct4(h) => f.Inet4? && InRange(h)
    case Struct6(h) => f.Inet6? && InRange6(h)
  }

  function NetProtocol(n: NetT): bv8 {
    match n
    case Struct4(h) => h.protocol
    case Struct6(h) => h.nextHdr
  }

  function NetView(n: NetT): Net {
    match n
    case Struct4(h) => V4(Ipv4View(h))
    case Struct6(h) => V6(Ipv6View(h))
  }

  lemma NetViewFields(f: Family, n: NetT)
    requires NetInRange(f, n)
    ensures Protocol(NetView(n)) == NetProtocol(n) && NetWellFormed(NetView(n)) && FamilyOf(NetView(n)) == f
  {
  }

  class HdrMd {
    const family: Family
    var eth: EthernetT
    var net: NetT
    var tcp: PortsT
    var udp: PortsT
    var srcPort: bv16
    var dstPort: bv16
    var packetOffsetInBits: nat

    constructor (family: Family)
      ensures this.family == family
    {
      this.family := family;
      eth, net, tcp, udp, srcPort, dstPort, packetOffsetInBits := NoEthernet, NoNet(family), NoPorts, NoPorts, 0, 0, 0;
    }

    method Clear()
      modifies this
      ensures eth == NoEthernet && net == NoNet(family) && tcp == NoPorts && udp == NoPorts
      ensures srcPort == 0 && dstPort == 0 && packetOffsetInBits == 0
    {
      eth, net, tcp, udp, srcPort, dstPort, packetOffsetInBits := NoEthernet, NoNet(family), NoPorts, NoPorts, 0, 0, 0;
    }

    ghost function View(): Headers
      reads this
    {
      Headers(if eth.valid then Some(EthernetView(eth)) else None,
              if NetValid(net) then Some(NetView(net)) else None,
              if tcp.valid then Some(PortsView(tcp)) else None,
              if udp.valid then Some(PortsView(udp)) else None)
    }

    /** Fields stay in range, and what was not extracted is still clear. */
    ghost predicate Valid()
      reads this
    {
      && NetInRange(family, net)
      && (!NetValid(net) ==> net == NoNet(family))
      && (!tcp.valid ==> tcp == NoPorts)
      && (!udp.valid ==> udp == NoPorts)
    }
  }

  // ---- the parser ----

  datatype State = Start | ParseNet | ParseTcp | ParseUdp | Reject | Accept

  function Rank(s: State): nat {
    match s
    case Start => 4
    case ParseNet => 3
    case ParseTcp => 2
    case ParseUdp => 2
    case Reject => 1
    case Accept => 0
  }

  /** The headers after the network header was extracted. */
  ghost predicate NetParsed(f: Family, p: seq<bv8>, hdr: Headers, at: nat) {
    && at == 14 + NetSize(f) <= |p| && EthernetOf(p[..14]).etherType == NetType(f)
    && hdr == NoHeaders.(eth := Some(EthernetOf(p[..14])), net := Some(NetOf(f, p[14..at])))
  }

  ghost predicate Reached(f: Family, p: seq<bv8>, s: State, hdr: Headers, at: nat, error: int) {
    match s
    case Start => at == 0 && hdr == NoHeaders && error == 0
    case ParseNet => at == 14 <= |p| && EthernetOf(p[..14]).etherType == NetType(f) && error == 0 &&
                     hdr == NoHeaders.(eth := Some(EthernetOf(p[..14])))
    case ParseTcp => NetParsed(f, p, hdr, at) && error == 0 && Protocol(hdr.net.value) == 0x06
    case ParseUdp => NetParsed(f, p, hdr, at) && error == 0 && Protocol(hdr.net.value) == 0x11
    case Reject => if error == 0 then Parse(f, p) == Rejected else Parse(f, p) == Accepted(hdr, at)
    case Accept => Parse(f, p) == Accepted(hdr, at)
  }

  method StartState(pkt: array<bv8>, md: HdrMd) returns (next: State, at: nat, offset: nat, error: int)
    requires md.Valid() && md.View() == NoHeaders
    modifies md`eth
    ensures next.ParseNet? || next.Reject?
    ensures offset == 8 * at
    ensures md.Valid() && Reached(md.family, pkt[..], next, md.View(), at, error)
  {
    hide EthernetOf, NetOf, EthernetView, NetView, InRange, InRange6;
    if pkt.Length < 14 {
      return Reject, 0, 0, PACKET_TOO_SHORT;
    }
    md.eth, offset := ExtractEthernet(pkt, 0);
    TypeOfView(md.eth);
    return if md.eth.etherType == NetType(md.family) then ParseNet else Reject, 14, offset, 0;
  }

  method ExtractNet(f: Family, pkt: array<bv8>, offset0: nat) returns (n: NetT, offset: nat)
    requires offset0 % 8 == 0 && offset0 / 8 + NetSize(f) <= pkt.Length
    ensures offset == offset0 + 8 * NetSize(f)
    ensures NetValid(n) && NetInRange(f, n)
    ensures NetView(n) == NetOf(f, pkt[offset0 / 8..offset0 / 8 + NetSize(f)])
  {
    hide Ipv4View, Ipv6View, Ipv4Of, Ipv6Of, InRange, InRange6;
    match f {
      case Inet4 =>
        var h;
        h, offset := ExtractIpv4(pkt, offset0);
        n := Struct4(h);
      case Inet6 =>
        var h;
        h, offset := ExtractIpv6(pkt, offset0);
        n := Struct6(h);
    }
  }

  /** parse_ipv4 or parse_ipv6 */
  method ParseNetState(pkt: array<bv8>, md: HdrMd, hdrStart: nat, offset0: nat)
    returns (next: State, at: nat, offset: nat, error: int)
    requires offset0 == 8 * hdrStart
    requires md.Valid() && Reached(md.family, pkt[..], ParseNet, md.View(), hdrStart, 0)
    modifies md`net
    ensures Rank(next) < Rank(ParseNet)
    ensures offset == 8 * at
    ensures md.Valid() && Reached(md.family, pkt[..], next, md.View(), at, error)
  {
    hide EthernetOf, NetOf, EthernetView, NetView, NetInRange, NetWellFormed, Protocol;
    var n := NetSize(md.family);
    if pkt.Length < hdrStart + n {
      return Reject, hdrStart, offset0, PACKET_TOO_SHORT;
    }
    md.net, offset := ExtractNet(md.family, pkt, offset0);
    NetViewFields(md.family, md.net);
    var protocol := NetProtocol(md.net);
    next := if protocol == 0x06 then ParseTcp else if protocol == 0x11 then ParseUdp else Reject;
    return next, hdrStart + n, offset, 0;
  }

  /** parse_tcp and parse_udp: four bytes of ports into the struct of the branch taken */
  method ParsePortsState(pkt: array<bv8>, md: HdrMd, s: State, hdrStart: nat, offset0: nat)
    returns (next: State, at: nat, offset: nat, error: int)
    requires s.ParseTcp? || s.ParseUdp?
    requires offset0 == 8 * hdrStart
    requires md.Valid() && Reached(md.family, pkt[..], s, md.View(), hdrStart, 0)
    modifies md`tcp, md`udp
    ensures next.Reject? || next.Accept?
    ensures offset == 8 * at
    ensures md.Valid() && Reached(md.family, pkt[..], next, md.View(), at, error)
  {
    hide EthernetOf, NetOf, PortsOf, EthernetView, NetView, PortsView, NetInRange, NetWellFormed, Protocol;
    if pkt.Length < hdrStart + 4 {
      return Reject, hdrStart, offset0, PACKET_TOO_SHORT;
    }
    if s.ParseTcp? {
      md.tcp, offset := ExtractPorts(pkt, offset0);
    } else {
      md.udp, offset := ExtractPorts(pkt, offset0);
    }
    return Accept, hdrStart + 4, offset, 0;
  }

  method RunParser(skb: Skb, md: HdrMd, g: GlobalMetadata) returns (ret: int)
    modifies md, g`parserError
    ensures ret == SHOT || ret == PASS
    ensures ret == SHOT <==> Parse(md.family, skb.data[..]) == Rejected
    ensures ret == PASS ==> md.Valid() && md.srcPort == 0 && md.dstPort == 0 && md.packetOffsetInBits % 8 == 0
    ensures ret == PASS ==> Parse(md.family, skb.data[..]) == Accepted(md.View(), md.packetOffsetInBits / 8)
  {
    hide NetView, NetInRange, NetWellFormed, Protocol, Parse, Reached;
    var pkt := skb.data;
    var error, hdrStart: nat, offset: nat := 0, 0, 0;
    var state := Start;
    md.Clear();
    NothingParsed(md.family, pkt[..]);
    while state != Accept
      invariant md.Valid() && md.srcPort == 0 && md.dstPort == 0 && offset == 8 * hdrStart
      invariant state.Start? ==> md.View() == NoHeaders
      invariant Reached(md.family, pkt[..], state, md.View(), hdrStart, error)
      decreases Rank(state)
    {
      NoError(md.family, pkt[..], state, md.View(), hdrStart, error);
      match state {
        case Start =>
          state, hdrStart, offset, error := StartState(pkt, md);
        case ParseNet =>
          state, hdrStart, offset, error := ParseNetState(pkt, md, hdrStart, offset);
        case ParseTcp =>
          state, hdrStart, offset, error := ParsePortsState(pkt, md, state, hdrStart, offset);
        case ParseUdp =>
          state, hdrStart, offset, error := ParsePortsState(pkt, md, state, hdrStart, offset);
        case Reject =>
          Decided(md.family, pkt[..], state, md.View(), hdrStart, error);
          if error == 0 {
            return SHOT;
          }
          g.parserError := error;
          state := Accept;
      }
    }
    Decided(md.family, pkt[..], state, md.View(), hdrStart, error);
    md.packetOffsetInBits := offset;
    return PASS;
  }

  lemma NoError(f: Family, p: seq<bv8>, s: State, hdr: Headers, at: nat, error: int)
    requires Reached(f, p, s, hdr, at, error)
    ensures !s.Reject? && !s.Accept? ==> error == 0
  {
  }

  lemma Decided(f: Family, p: seq<bv8>, s: State, hdr: Headers, at: nat, error: int)
    requires (s.Reject? || s.Accept?) && Reached(f, p, s, hdr, at, error)
    ensures if s.Reject? && error == 0 then Parse(f, p) == Rejected
            else Parse(f, p) == Accepted(hdr, at) && Reached(f, p, Accept, hdr, at, error)
  {
  }

  lemma NothingParsed(f: Family, p: seq<bv8>)
    ensures NetInRange(f, NoNet(f)) && Reached(f, p, Start, NoHeaders, 0, 0)
  {
  }

  // ---- the key ----

  /** The addresses as the struct keeps them, which is the order they have on the wire. */
  function SourceBytes(n: NetT): seq<bv8> {
    match n
    case Struct4(h) => Mem32(h.srcAddr)
    case Struct6(h) => h.srcAddr
  }

  function DestinationBytes(n: NetT): seq<bv8> {
    match n
    case Struct4(h) => Mem32(h.dstAddr)
    case Struct6(h) => h.dstAddr
  }

  lemma ZeroMemory()
    ensures Mem32(0) == Zeros(4)
  {
    assert forall k :: 0 <= k < 4 ==> Mem32(0)[k] == 0;
  }

  /** The key read off the structs. */
  function StructKey(n: NetT, port: bv32, srcPort: bv16, dstPort: bv16): FlowKey {
    FlowKey(port, SourceBytes(n), DestinationBytes(n), NetProtocol(n), srcPort, dstPort)
  }

  /** It is the key of the P4 headers: a header that is not there counts as zeros. */
  lemma StructKeyIsFlowKey(f: Family, n: NetT, hdr: Headers, port: bv32)
    requires NetInRange(f, n) && (!NetValid(n) ==> n == NoNet(f))
    requires HeadersOf(f, hdr) && hdr.net == if NetValid(n) then Some(NetView(n)) else None
    ensures KeyOf(f, hdr, port) == StructKey(n, port, EffectivePorts(hdr).srcPort, EffectivePorts(hdr).dstPort)
  {
    hide Swab32, Mem32, Row, To4, To3, To13, To20, EffectivePorts;
    ZeroMemory();
    match n
    case Struct4(h) =>
      MemOfSwab32(h.srcAddr);
      MemOfSwab32(h.dstAddr);
    case Struct6(h) =>
      assert !h.valid ==> ZeroAddress6 == Zeros(16);
  }

  /** The struct Main_ct_flow_table_key in memory: cleared, then filled field by field. */
  method KeyMemory(f: Family, port: bv32, n: NetT, srcPort: bv16, dstPort: bv16) returns (key: Key)
    ensures key == KeyBytes(f, StructKey(n, port, srcPort, dstPort))
  {
    hide Mem32, Mem16, Half, Zeros, NetProtocol, SourceBytes, DestinationBytes, Swab16;
    var head := Mem32(if f.Inet4? then 136 else 328) + Mem32(0);
    var fields := Mem32(port);
    fields := fields + SourceBytes(n);
    fields := fields + DestinationBytes(n);
    fields := fields + [NetProtocol(n)];
    fields := fields + Mem16(Swab16(srcPort));
    fields := fields + Mem16(Swab16(dstPort));
    MemOfSwab16(srcPort);
    MemOfSwab16(dstPort);
    key := head + fields + Zeros(7);
  }

  method BuildKey(skb: Skb, md: HdrMd) returns (key: Key)
    requires md.Valid() && HeadersOf(md.family, md.View())
    requires Ports(md.srcPort, md.dstPort) == EffectivePorts(md.View())
    ensures key == KeyBytes(md.family, KeyOf(md.family, md.View(), skb.ifindex))
  {
    hide NetView, NetInRange, NetWellFormed, PortsView, StructKey, KeyOf, KeyBytes, EthernetView;
    StructKeyIsFlowKey(md.family, md.net, md.View(), skb.ifindex);
    key := KeyMemory(md.family, skb.ifindex, md.net, md.srcPort, md.dstPort);
  }

  // ---- the control ----

  method SetPorts(md: HdrMd)
    requires md.srcPort == 0 && md.dstPort == 0
    modifies md`srcPort, md`dstPort
    ensures Ports(md.srcPort, md.dstPort) == EffectivePorts(md.View())
  {
    hide NetView;
    if md.tcp.valid {
      md.srcPort, md.dstPort := md.tcp.srcPort, md.tcp.dstPort;
    } else if md.udp.valid {
      md.srcPort, md.dstPort := md.udp.srcPort, md.udp.dstPort;
    }
  }

  /** ct_flow_table: look the key up, and create an entry when the default action says so. */
  method ApplyFlowTable(table: KernelTable, key: Key, answers: bool, ok: bool)
    modifies table
    ensures table.entries == TrackOne(old(table.entries), key, answers, ok)
  {
    var value := table.Read(key, answers);
    match value {
      case Some(NoActionEntry) =>
      case Some(CtFlowMissEntry) =>
        table.CreateOnMiss(key, ok);
      case None =>
    }
  }

  // ---- the deparser ----

  method EmitNet(f: Family, pkt: array<bv8>, offset0: nat, n: NetT) returns (offset: nat)
    requires offset0 % 8 == 0 && offset0 / 8 + NetSize(f) <= pkt.Length
    requires NetInRange(f, n)
    modifies pkt
    ensures offset == offset0 + 8 * NetSize(f)
    ensures NetWellFormed(NetView(n)) && pkt[..] == Splice(old(pkt[..]), offset0 / 8, NetBytes(NetView(n)))
  {
    hide Ipv4View, Ipv4Bytes, Ipv6Bytes, InRange, Splice, To4, To20;
    match n {
      case Struct4(h) =>
        offset := EmitIpv4(pkt, offset0, h);
      case Struct6(h) =>
        offset := EmitIpv6(pkt, offset0, h);
    }
  }

  method EmitPortsHeader(pkt: array<bv8>, offset0: nat, h: PortsT, ghost s: seq<bv8>, ghost done: seq<bv8>)
    returns (ret: int, offset: nat)
    requires offset0 == 8 * |done| && |s| == pkt.Length && |done| + (if h.valid then 4 else 0) <= pkt.Length
    requires pkt[..] == Splice(s, 0, done)
    modifies pkt
    ensures ret == PASS
    ensures var more := done + EmitPortsOption(if h.valid then Some(PortsView(h)) else None);
      offset == 8 * |more| && pkt[..] == Splice(s, 0, more)
  {
    hide PortsView, PortsBytes, Splice;
    offset := offset0;
    if h.valid {
      if pkt.Length < offset / 8 + 4 {
        return SHOT, offset;
      }
      offset := EmitPorts(pkt, offset, h);
      ghost var more := Extend(s, 0, done, PortsBytes(PortsView(h)), pkt[..]);
    } else {
      assert done + [] == done;
    }
    return PASS, offset;
  }

  method EmitFront(pkt: array<bv8>, md: HdrMd, ghost s: seq<bv8>) returns (ret: int, offset: nat)
    requires s == pkt[..] && md.Valid() && HeadersOf(md.family, md.View())
    requires Width(md.family, md.View().(tcp := None, udp := None)) <= pkt.Length
    modifies pkt
    ensures ret == PASS
    ensures HeadersOf(md.family, md.View())
    ensures var done := Emit(md.View().(tcp := None, udp := None));
      offset == 8 * |done| && |done| <= |s| && pkt[..] == Splice(s, 0, done)
  {
    hide EthernetView, NetView, PortsView, EthernetBytes, NetBytes, PortsBytes, NetInRange, NetWellFormed, Splice;
    ghost var done: seq<bv8> := [];
    offset := 0;
    SpliceNothing(s);
    if md.eth.valid {
      if pkt.Length < 14 {
        return SHOT, offset;
      }
      EmitEthernet(pkt, md.eth);
      offset := offset + 112;
      done := EthernetBytes(EthernetView(md.eth));
    }
    if NetValid(md.net) {
      if pkt.Length < offset / 8 + NetSize(md.family) {
        return SHOT, offset;
      }
      offset := EmitNet(md.family, pkt, offset, md.net);
      done := Extend(s, 0, done, NetBytes(NetView(md.net)), pkt[..]);
    }
    assert done == Emit(md.View().(tcp := None, udp := None));
    return PASS, offset;
  }

  /** The valid headers written one behind the other from the front; the bounds checks never fire. */
  method EmitHeaders(skb: Skb, md: HdrMd) returns (ret: int)
    requires md.Valid() && HeadersOf(md.family, md.View())
    requires Width(md.family, md.View()) <= skb.data.Length
    modifies skb.data
    ensures ret == PASS
    ensures HeadersOf(md.family, md.View())
    ensures skb.data[..] == Emit(md.View()) + old(skb.data[..])[Width(md.family, md.View())..]
  {
    hide EthernetView, NetView, PortsView, NetInRange, NetWellFormed, Splice, Emit, EmitPortsOption;
    var pkt, offset: nat := skb.data, 0;
    ghost var s, hdr := pkt[..], md.View();
    ghost var done := Emit(hdr.(tcp := None, udp := None));
    EmitInParts(md.family, hdr);
    ret, offset := EmitFront(pkt, md, s);
    if ret != PASS {
      return SHOT;
    }
    ret, offset := EmitPortsHeader(pkt, offset, md.tcp, s, done);
    if ret != PASS {
      return SHOT;
    }
    ret, offset := EmitPortsHeader(pkt, offset, md.udp, s, done + EmitPortsOption(hdr.tcp));
    SpliceFront(s, Emit(hdr));
  }

  lemma EmitInParts(f: Family, hdr: Headers)
    requires HeadersOf(f, hdr)
    ensures Emit(hdr) == Emit(hdr.(tcp := None, udp := None)) + EmitPortsOption(hdr.tcp) + EmitPortsOption(hdr.udp)
    ensures |Emit(hdr)| == Width(f, hdr)
    ensures |EmitPortsOption(hdr.tcp)| == if hdr.tcp.Some? then 4 else 0
    ensures |EmitPortsOption(hdr.udp)| == if hdr.udp.Some? then 4 else 0
  {
    hide EthernetBytes, NetBytes, PortsBytes, NetWellFormed;
  }

  // ---- one packet ----

  /** The key of an accepted packet. */
  ghost function PacketKey(f: Family, p: seq<bv8>, port: bv32): Key
    requires Parse(f, p).Accepted?
  {
    ParsedFits(f, p);
    KeyBytes(f, KeyOf(f, Parse(f, p).hdr, port))
  }

  /** process: track the flow, then put the headers back; the resize branch is dead. */
  method Process(skb: Skb, md: HdrMd, g: GlobalMetadata, table: KernelTable, answers: bool, ok: bool)
    returns (ret: int)
    requires md.Valid() && md.srcPort == 0 && md.dstPort == 0
    requires Parse(md.family, skb.data[..]) == Accepted(md.View(), md.packetOffsetInBits / 8)
    modifies md, skb.data, table
    ensures ret == if g.drop then SHOT else PASS
    ensures skb.data[..] == old(skb.data[..])
    ensures var key := old(PacketKey(md.family, skb.data[..], skb.ifindex));
      table.entries == TrackOne(old(table.entries), key, answers, ok)
  {
    hide EthernetView, NetView, PortsView, NetInRange, NetWellFormed, Parse, Emit, KeyOf, KeyBytes, Reply, Created;
    ghost var p := skb.data[..];
    ParsedFits(md.family, p);
    EmitRestores(md.family, p);
    var n := md.packetOffsetInBits / 8;
    SetPorts(md);
    var key := BuildKey(skb, md);
    ApplyFlowTable(table, key, answers, ok);
    if g.drop {
      return SHOT;
    }
    var outHeaderLength := (if md.eth.valid then 112 else 0) +
                           (if NetValid(md.net) then 8 * NetSize(md.family) else 0) +
                           (if md.tcp.valid then 32 else 0) + (if md.udp.valid then 32 else 0);
    var outHeaderOffset := outHeaderLength / 8 - n;
    if outHeaderOffset != 0 {
      assert false;  // the resize branch is dead
    }
    ret := EmitHeaders(skb, md);
  }

  /** One tracker: a packet it lets through leaves byte for byte as it came, to the port it
      was bound for; a rejected packet leaves no trace in the table; any other is tracked
      once under its key, dropped or not. */
  method Node(skb: Skb, md: HdrMd, g: GlobalMetadata, table: KernelTable, answers: bool, ok: bool)
    returns (verdict: Verdict)
    modifies md, g`parserError, skb.data, table
    ensures skb.data[..] == old(skb.data[..])
    ensures var p := old(skb.data[..]);
      if Parse(md.family, p).Rejected? then verdict == Shot && table.entries == old(table.entries)
      else verdict == (if g.drop then Shot else if g.egressPort == 0 then ToHost else Redirect(g.egressPort)) &&
           table.entries == TrackOne(old(table.entries), PacketKey(md.family, p, skb.ifindex), answers, ok)
  {
    hide EthernetView, NetView, PortsView, NetInRange, NetWellFormed, Parse, KeyOf, KeyBytes, Reply, Created;
    var ret := RunParser(skb, md, g);
    if ret != PASS {
      return Shot;
    }
    ret := Process(skb, md, g, table, answers, ok);
    if ret != PASS {
      return Shot;
    }
    return Deliver(g.egressPort);
  }
}
