// The generated C of the routing program: parser, two-stage lookup, checksum
// update and emit, on a packet buffer that is changed in place.

module Routing {
  import opened Wrappers
  import opened Bytes
  import opened WireFormat
  import opened HeaderStructs
  import opened InternetHeader
  import opened HeaderChecksum
  import opened RoutingP4
  import opened TrafficControl

  class HdrMd {
    var ethernet: EthernetT
    var ip: Ipv4T
    var packetOffsetInBits: nat

    constructor ()
    {
      ethernet, ip, packetOffsetInBits := NoEthernet, NoIpv4, 0;
    }

    method Clear()
      modifies this
      ensures ethernet == NoEthernet && ip == NoIpv4 && packetOffsetInBits == 0
    {
      ethernet, ip, packetOffsetInBits := NoEthernet, NoIpv4, 0;
    }

    ghost function View(): Headers
      reads this
    {
      Headers(if ethernet.valid then Some(EthernetView(ethernet)) else None,
              if ip.valid then Some(Ipv4View(ip)) else None)
    }

    ghost predicate Valid()
      reads this
    {
      InRange(ip)
    }
  }

  // ---- the parser ----

  datatype State = Start | ParseIpv4 | Reject | Accept

  function Rank(s: State): nat {
    match s
    case Start => 3
    case ParseIpv4 => 2
    case Reject => 1
    case Accept => 0
  }

  ghost predicate Reached(p: seq<bv8>, s: State, hdr: Headers, at: nat, error: int) {
    match s
    case Start => at == 0 && hdr == NoHeaders && error == 0
    case ParseIpv4 => at == 14 <= |p| && EthernetOf(p[..14]).etherType == 0x0800 && error == 0 &&
                      hdr == Headers(Some(EthernetOf(p[..14])), None)
    case Reject => if error == 0 then Parse(p) == Rejected else Parse(p) == Accepted(hdr, at)
    case Accept => Parse(p) == Accepted(hdr, at)
  }

  method StartState(pkt: array<bv8>, md: HdrMd) returns (next: State, at: nat, offset: nat, error: int)
    requires md.Valid() && md.View() == NoHeaders
    modifies md`ethernet
    ensures next.ParseIpv4? || next.Reject?
    ensures offset == 8 * at
    ensures md.Valid() && Reached(pkt[..], next, md.View(), at, error)
  {
    hide EthernetOf, Ipv4Of, EthernetView, Ipv4View, InRange;
    if pkt.Length < 14 {
      return Reject, 0, 0, PACKET_TOO_SHORT;
    }
    md.ethernet, offset := ExtractEthernet(pkt, 0);
    TypeOfView(md.ethernet);
    return if md.ethernet.etherType == 0x0800 then ParseIpv4 else Reject, 14, offset, 0;
  }

  method ParseIpv4State(pkt: array<bv8>, md: HdrMd, hdrStart: nat, offset0: nat)
    returns (next: State, at: nat, offset: nat, error: int)
    requires offset0 == 8 * hdrStart
    requires md.Valid() && Reached(pkt[..], ParseIpv4, md.View(), hdrStart, 0)
    modifies md`ip
    ensures next.Reject? || next.Accept?
    ensures offset == 8 * at
    ensures md.Valid() && Reached(pkt[..], next, md.View(), at, error)
  {
    hide EthernetOf, Ipv4Of, EthernetView, Ipv4View, InRange;
    if pkt.Length < hdrStart + 20 {
      return Reject, hdrStart, offset0, PACKET_TOO_SHORT;
    }
    md.ip, offset := ExtractIpv4(pkt, offset0);
    return Accept, hdrStart + 20, offset, 0;
  }

  method RunParser(skb: Skb, md: HdrMd, g: GlobalMetadata) returns (ret: int)
    modifies md, g`parserError
    ensures ret == SHOT || ret == PASS
    ensures ret == SHOT <==> Parse(skb.data[..]) == Rejected
    ensures ret == PASS ==> md.Valid() && md.packetOffsetInBits % 8 == 0
    ensures ret == PASS ==> Parse(skb.data[..]) == Accepted(md.View(), md.packetOffsetInBits / 8)
  {
    hide EthernetOf, Ipv4Of, EthernetView, Ipv4View, InRange, Parse, Reached;
    var pkt := skb.data;
    var error, hdrStart: nat, offset: nat := 0, 0, 0;
    var state := Start;
    md.Clear();
    NothingParsed(pkt[..]);
    while state != Accept
      invariant md.Valid() && offset == 8 * hdrStart
      invariant state.Start? ==> md.View() == NoHeaders
      invariant Reached(pkt[..], state, md.View(), hdrStart, error)
      decreases Rank(state)
    {
      match state {
        case Start =>
          state, hdrStart, offset, error := StartState(pkt, md);
        case ParseIpv4 =>
          NoError(pkt[..], md.View(), hdrStart, error);
          state, hdrStart, offset, error := ParseIpv4State(pkt, md, hdrStart, offset);
        case Reject =>
          Decided(pkt[..], state, md.View(), hdrStart, error);
          if error == 0 {
            return SHOT;
          }
          g.parserError := error;
          state := Accept;
      }
    }
    Decided(pkt[..], state, md.View(), hdrStart, error);
    md.packetOffsetInBits := offset;
    return PASS;
  }

  lemma NoError(p: seq<bv8>, hdr: Headers, at: nat, error: int)
    requires Reached(p, ParseIpv4, hdr, at, error)
    ensures error == 0
  {
  }

  lemma Decided(p: seq<bv8>, s: State, hdr: Headers, at: nat, error: int)
    requires (s.Reject? || s.Accept?) && Reached(p, s, hdr, at, error)
    ensures if s.Reject? && error == 0 then Parse(p) == Rejected
            else Parse(p) == Accepted(hdr, at) && Reached(p, Accept, hdr, at, error)
  {
  }

  lemma NothingParsed(p: seq<bv8>)
    ensures InRange(NoIpv4) && Reached(p, Start, NoHeaders, 0, 0)
  {
  }

  // ---- the control ----

  datatype FibEntry = SetNhidEntry(index: bv32) | FibNoActionEntry

  datatype NhEntry = NhDropEntry | SetNhEntry(dmac: bv64, port: bv32) | NhNoActionEntry

  function FibActionOf(value: Option<FibEntry>): FibAction {
    match value
    case Some(SetNhidEntry(index)) => SetNhid(index)
    case _ => FibNoAction
  }

  function NhActionOf(value: Option<NhEntry>): NhAction {
    match value
    case Some(SetNhEntry(dmac, port)) => SetNh(MacOf(Mem48(dmac)), port)
    case Some(NhDropEntry) => NhDrop
    case _ => NhNoAction
  }

  /** The tables as the program sees them: the FIB key is the address in network order. */
  function TablesOf(fibTable: bv32 -> Option<FibEntry>, nhTable: bv32 -> Option<NhEntry>): Tables {
    Tables(dst => FibActionOf(fibTable(Swab32(dst))), index => NhActionOf(nhTable(index)))
  }

  /** fib_table: the index stays 0 unless the entry sets it */
  method ApplyFib(dstAddr: bv32, fibTable: bv32 -> Option<FibEntry>, ghost t: Tables) returns (nhIndex: bv32)
    requires t.fib(Swab32(dstAddr)) == FibActionOf(fibTable(dstAddr))
    ensures nhIndex == NextHopIndex(Swab32(dstAddr), t)
  {
    hide Swab32;
    nhIndex := 0;
    match fibTable(dstAddr) {
      case Some(SetNhidEntry(index)) =>
        nhIndex := index;
      case Some(FibNoActionEntry) =>
      case None =>
    }
  }

  method ApplyNh(md: HdrMd, g: GlobalMetadata, value: Option<NhEntry>)
    modifies md`ethernet, g`drop, g`egressPort
    ensures md.ethernet.valid == old(md.ethernet.valid)
    ensures Control(md.View(), g.drop, g.egressPort) ==
            Apply(old(md.View()), NhActionOf(value), old(g.drop), old(g.egressPort))
  {
    hide Ipv4View, Mem48, MacOf;
    match value {
      case Some(NhDropEntry) =>
        g.drop := true;
      case Some(SetNhEntry(dmac, port)) =>
        md.ethernet := md.ethernet.(dstAddr := dmac);
        g.drop, g.egressPort := false, port;
      case Some(NhNoActionEntry) =>
      case None =>
    }
  }

  method MainControl(md: HdrMd, g: GlobalMetadata, fibTable: bv32 -> Option<FibEntry>, nhTable: bv32 -> Option<NhEntry>)
    modifies md`ethernet, g`drop, g`egressPort
    ensures md.ethernet.valid == old(md.ethernet.valid)
    ensures Control(md.View(), g.drop, g.egressPort) ==
            Main(old(md.View()), TablesOf(fibTable, nhTable), old(g.drop), old(g.egressPort))
  {
    hide Ipv4View, EthernetView, NhActionOf, FibActionOf, Apply, NextHopIndex, TablesOf, Swab32;
    HeaderFields(md.ip);
    LookupResults(fibTable, nhTable, md.ip.dstAddr);
    if md.ip.valid && md.ip.ttl > 1 {
      var nhIndex := ApplyFib(md.ip.dstAddr, fibTable, TablesOf(fibTable, nhTable));
      ApplyNh(md, g, nhTable(nhIndex));
    } else {
      g.drop := true;
    }
  }

  lemma LookupResults(fibTable: bv32 -> Option<FibEntry>, nhTable: bv32 -> Option<NhEntry>, dstAddr: bv32)
    ensures var t := TablesOf(fibTable, nhTable);
      t.fib(Swab32(dstAddr)) == FibActionOf(fibTable(dstAddr)) && forall i :: t.nh(i) == NhActionOf(nhTable(i))
  {
    hide Swab32;
    MemOfSwab32(dstAddr);
  }

  lemma HeaderFields(h: Ipv4T)
    ensures Ipv4View(h).ttl == h.ttl && Ipv4View(h).dstAddr == Swab32(h.dstAddr)
  {
    hide Swab32;
  }

  // ---- the deparser ----

  method EmitHeaders(skb: Skb, md: HdrMd) returns (ret: int)
    requires md.Valid() && (md.ip.valid ==> md.ethernet.valid)
    requires Width(md.View()) <= skb.data.Length
    modifies skb.data
    ensures ret == PASS
    ensures skb.data[..] == Emit(md.View()) + old(skb.data[..])[Width(md.View())..]
  {
    hide EthernetView, Ipv4View, EthernetBytes, Ipv4Bytes, InRange;
    var pkt, offset: nat := skb.data, 0;
    ghost var s := pkt[..];
    ghost var done: seq<bv8> := [];
    if md.ethernet.valid {
      if pkt.Length < 14 {
        return SHOT;
      }
      EmitEthernet(pkt, md.ethernet);
      offset := offset + 112;
      done := EthernetBytes(EthernetView(md.ethernet));
    }
    if md.ip.valid {
      if pkt.Length < offset / 8 + 20 {
        return SHOT;
      }
      offset := EmitIpv4(pkt, offset, md.ip);
      done := Extend(s, 0, done, Ipv4Bytes(Ipv4View(md.ip)), pkt[..]);
    }
    assert done == Emit(md.View());
    return PASS;
  }

  method Process(skb: Skb, md: HdrMd, g: GlobalMetadata,
                 fibTable: bv32 -> Option<FibEntry>, nhTable: bv32 -> Option<NhEntry>)
    returns (ret: int)
    requires md.Valid()
    requires Parse(skb.data[..]) == Accepted(md.View(), md.packetOffsetInBits / 8)
    modifies md, g, skb.data
    ensures ret == SHOT || ret == PASS
    ensures var c := Main(old(md.View()), TablesOf(fibTable, nhTable), old(g.drop), old(g.egressPort));
      var n := old(md.packetOffsetInBits) / 8;
      g.drop == c.drop && g.egressPort == c.port && (ret == SHOT <==> c.drop) &&
      (ret == PASS ==> n <= old(skb.data.Length) && skb.data[..] == Emit(Decremented(c.hdr)) + old(skb.data[..])[n..])
  {
    hide EthernetView, Ipv4View, EthernetBytes, Ipv4Bytes, InRange, Emit, Parse, TtlDecremented, Main, TablesOf;
    ghost var p, before, t := skb.data[..], md.View(), TablesOf(fibTable, nhTable);
    ParsedFits(p);
    MainKeeps(before, t, g.drop, g.egressPort);
    var n := md.packetOffsetInBits / 8;
    MainControl(md, g, fibTable, nhTable);
    md.ip := DecrementTtl(md.ip);
    if g.drop {
      return SHOT;
    }
    var outHeaderLength := (if md.ethernet.valid then 112 else 0) + (if md.ip.valid then 160 else 0);
    var outHeaderOffset := outHeaderLength / 8 - n;
    if outHeaderOffset != 0 {
      assert false;  // the resize branch is dead
    }
    ret := EmitHeaders(skb, md);
  }

  lemma MainKeeps(hdr: Headers, t: Tables, drop: bool, port: bv32)
    ensures var c := Main(hdr, t, drop, port).hdr; c.ip == hdr.ip && (c.ethernet.Some? <==> hdr.ethernet.Some?)
  {
  }

  /** One router: its verdict and the bytes it leaves are those of the P4 program, for every
      packet and table; it never asks the kernel to resize. */
  method Node(skb: Skb, md: HdrMd, g: GlobalMetadata,
              fibTable: bv32 -> Option<FibEntry>, nhTable: bv32 -> Option<NhEntry>)
    returns (verdict: Verdict)
    modifies md, g, skb.data
    ensures match Run(old(skb.data[..]), TablesOf(fibTable, nhTable), old(g.drop), old(g.egressPort))
      case Dropped => verdict == Shot
      case Sent(bytes, port) =>
        (if port == 0 then verdict == ToHost else verdict == Redirect(port)) && skb.data[..] == bytes
  {
    hide EthernetView, Ipv4View, EthernetBytes, Ipv4Bytes, InRange, Emit, Parse, TablesOf, Main, TtlDecremented;
    ghost var p := skb.data[..];
    var ret := RunParser(skb, md, g);
    if ret != PASS {
      return Shot;
    }
    ParsedFits(p);
    ret := Process(skb, md, g, fibTable, nhTable);
    if ret != PASS {
      return Shot;
    }
    return Deliver(g.egressPort);
  }
}
