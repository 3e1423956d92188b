// The generated C of the ipip program: parser state machine, control, push,
// checksums, resize and emit, on a packet buffer that is changed in place.

module Ipip {
  import opened Wrappers
  import opened Checksum
  import opened Bytes
  import opened WireFormat
  import opened HeaderStructs
  import opened InternetHeader
  import opened HeaderChecksum
  import opened IpipP4
  import opened TrafficControl

  /** struct hdr_md: the headers and user metadata of one packet on one CPU */
  class HdrMd {
    var ethernet: EthernetT
    var outer: Ipv4T
    var inner: Ipv4T
    var src: bv32
    var dst: bv32
    var push: bool
    var packetOffsetInBits: nat

    constructor ()
    {
      ethernet, outer, inner, src, dst, push, packetOffsetInBits := NoEthernet, NoIpv4, NoIpv4, 0, 0, false, 0;
    }

    /** memset(hdrMd, 0) */
    method Clear()
      modifies this
      ensures ethernet == NoEthernet && outer == NoIpv4 && inner == NoIpv4
      ensures src == 0 && dst == 0 && !push && packetOffsetInBits == 0
    {
      ethernet, outer, inner, src, dst, push, packetOffsetInBits := NoEthernet, NoIpv4, NoIpv4, 0, 0, false, 0;
    }

    /** The P4 headers the valid structs stand for. */
    ghost function View(): Headers
      reads this
    {
      Headers(if ethernet.valid then Some(EthernetView(ethernet)) else None, Ipv4Option(outer), Ipv4Option(inner))
    }

    ghost function MetaView(): Meta
      reads this
    {
      Meta(Swab32(src), Swab32(dst), push)
    }

    /** No field exceeds its declared width. */
    ghost predicate Valid()
      reads this
    {
      InRange(outer) && InRange(inner)
    }
  }

  ghost function Ipv4Option(h: Ipv4T): Option<Ipv4> {
    if h.valid then Some(Ipv4View(h)) else None
  }

  // ---- the parser ----

  datatype State = Start | ParseIpv4 | ParseIpv4Inner | Reject | Accept

  function Rank(s: State): nat {
    match s
    case Start => 4
    case ParseIpv4 => 3
    case ParseIpv4Inner => 2
    case Reject => 1
    case Accept => 0
  }

  /** How far the parser has come: the headers so far, the cursor, and the error code. */
  ghost predicate Reached(p: seq<bv8>, s: State, hdr: Headers, at: nat, error: int) {
    match s
    case Start => at == 0 && hdr == NoHeaders && error == 0
    case ParseIpv4 => at == 14 <= |p| && EthernetOf(p[..14]).etherType == 0x0800 && error == 0 &&
                      hdr == Headers(Some(EthernetOf(p[..14])), None, None)
    case ParseIpv4Inner => at == 34 <= |p| && EthernetOf(p[..14]).etherType == 0x0800 && error == 0 &&
                           Ipv4Of(p[14..34]).protocol == 4 &&
                           hdr == Headers(Some(EthernetOf(p[..14])), Some(Ipv4Of(p[14..34])), None)
    case Reject => if error == 0 then Parse(p) == Rejected else Parse(p) == Accepted(hdr, at)
    case Accept => Parse(p) == Accepted(hdr, at)
  }

  lemma ProtocolOfView(h: Ipv4T)
    ensures Ipv4View(h).protocol == h.protocol
  {
  }

  /** start: extract the Ethernet header and select on its type */
  method StartState(pkt: array<bv8>, md: HdrMd) returns (next: State, at: nat, offset: nat, error: int)
    requires md.Valid() && md.View() == NoHeaders
    modifies md`ethernet
    ensures next.ParseIpv4? || next.Reject?
    ensures offset == 8 * at
    ensures md.Valid() && Reached(pkt[..], next, md.View(), at, error)
  {
    hide EthernetOf, Ipv4Of, EthernetView, Ipv4View, InRange;
    if pkt.Length < 14 {
      return Reject, 0, 0, PACKET_TOO_SHORT;
    }
    md.ethernet, offset := ExtractEthernet(pkt, 0);
    TypeOfView(md.ethernet);
    return if md.ethernet.etherType == 0x0800 then ParseIpv4 else Reject, 14, offset, 0;
  }

  /** parse_ipv4: extract the outer header and select on its protocol */
  method ParseIpv4State(pkt: array<bv8>, md: HdrMd, hdrStart: nat, offset0: nat)
    returns (next: State, at: nat, offset: nat, error: int)
    requires offset0 == 8 * hdrStart
    requires md.Valid() && Reached(pkt[..], ParseIpv4, md.View(), hdrStart, 0)
    modifies md`outer
    ensures next.ParseIpv4Inner? || next.Reject? || next.Accept?
    ensures offset == 8 * at
    ensures md.Valid() && Reached(pkt[..], next, md.View(), at, error)
  {
    hide EthernetOf, Ipv4Of, EthernetView, Ipv4View, InRange;
    if pkt.Length < hdrStart + 20 {
      return Reject, hdrStart, offset0, PACKET_TOO_SHORT;
    }
    md.outer, offset := ExtractIpv4(pkt, offset0);
    ProtocolOfView(md.outer);
    return if md.outer.protocol == 4 then ParseIpv4Inner else Accept, hdrStart + 20, offset, 0;
  }

  /** parse_ipv4_inner: extract the inner header */
  method ParseIpv4InnerState(pkt: array<bv8>, md: HdrMd, hdrStart: nat, offset0: nat)
    returns (next: State, at: nat, offset: nat, error: int)
    requires offset0 == 8 * hdrStart
    requires md.Valid() && Reached(pkt[..], ParseIpv4Inner, md.View(), hdrStart, 0)
    modifies md`inner
    ensures next.Reject? || next.Accept?
    ensures offset == 8 * at
    ensures md.Valid() && Reached(pkt[..], next, md.View(), at, error)
  {
    hide EthernetOf, Ipv4Of, EthernetView, Ipv4View, InRange;
    if pkt.Length < hdrStart + 20 {
      return Reject, hdrStart, offset0, PACKET_TOO_SHORT;
    }
    md.inner, offset := ExtractIpv4(pkt, offset0);
    return Accept, hdrStart + 20, offset, 0;
  }

  method RunParser(skb: Skb, md: HdrMd, g: GlobalMetadata) returns (ret: int)
    modifies md, g`parserError
    ensures ret == SHOT || ret == PASS
    ensures ret == SHOT <==> Parse(skb.data[..]) == Rejected
    ensures ret == PASS ==> md.Valid() && !md.push && md.src == 0 && md.dst == 0
    ensures ret == PASS ==> md.packetOffsetInBits % 8 == 0
    ensures ret == PASS ==> Parse(skb.data[..]) == Accepted(md.View(), md.packetOffsetInBits / 8)
  {
    hide EthernetOf, Ipv4Of, EthernetView, Ipv4View, InRange, Parse;
    hide Reached;
    var pkt := skb.data;
    var error, hdrStart: nat, offset: nat := 0, 0, 0;
    var state := Start;
    md.Clear();
    NothingParsed(pkt[..]);
    while state != Accept
      invariant md.Valid() && !md.push && md.src == 0 && md.dst == 0
      invariant offset == 8 * hdrStart
      invariant state.Start? ==> md.View() == NoHeaders
      invariant Reached(pkt[..], state, md.View(), hdrStart, error)
      decreases Rank(state)
    {
      match state {
        case Start =>
          state, hdrStart, offset, error := StartState(pkt, md);
        case ParseIpv4 =>
          NoError(pkt[..], state, md.View(), hdrStart, error);
          state, hdrStart, offset, error := ParseIpv4State(pkt, md, hdrStart, offset);
        case ParseIpv4Inner =>
          NoError(pkt[..], state, md.View(), hdrStart, error);
          state, hdrStart, offset, error := ParseIpv4InnerState(pkt, md, hdrStart, offset);
        case Reject =>
          Decided(pkt[..], state, md.View(), hdrStart, error);
          if error == 0 {
            return SHOT;
          }
          g.parserError := error;
          state := Accept;
      }
    }
    Decided(pkt[..], state, md.View(), hdrStart, error);
    md.packetOffsetInBits := offset;
    return PASS;
  }

  lemma NoError(p: seq<bv8>, s: State, hdr: Headers, at: nat, error: int)
    requires (s.ParseIpv4? || s.ParseIpv4Inner?) && Reached(p, s, hdr, at, error)
    ensures error == 0
  {
  }

  lemma Decided(p: seq<bv8>, s: State, hdr: Headers, at: nat, error: int)
    requires (s.Reject? || s.Accept?) && Reached(p, s, hdr, at, error)
    ensures if s.Reject? && error == 0 then Parse(p) == Rejected
            else Parse(p) == Accepted(hdr, at) && Reached(p, Accept, hdr, at, error)
  {
  }

  lemma NothingParsed(p: seq<bv8>)
    ensures InRange(NoIpv4) && Reached(p, Start, NoHeaders, 0, 0)
  {
  }

  // ---- the control ----

  /** An entry of fwd_table as the kernel returns it; addresses are in network order. */
  datatype Entry =
    | SetIpipEntry(src: bv32, dst: bv32, port: bv32)
    | SetNhEntry(dmac: bv64, port: bv32)
    | DropEntry
    | NoActionEntry

  /** What a lookup result means; no result runs no action. */
  function ActionOf(value: Option<Entry>): Action {
    match value
    case None => NoAction
    case Some(SetIpipEntry(src, dst, port)) => SetIpip(Swab32(src), Swab32(dst), port)
    case Some(SetNhEntry(dmac, port)) => SetNh(MacOf(Mem48(dmac)), port)
    case Some(DropEntry) => Drop
    case Some(NoActionEntry) => NoAction
  }

  method ApplyEntry(md: HdrMd, g: GlobalMetadata, value: Option<Entry>)
    requires md.src == 0 && md.dst == 0 && !md.push
    modifies md`ethernet, md`src, md`dst, md`push, g`drop, g`egressPort
    ensures md.ethernet.valid == old(md.ethernet.valid)
    ensures Control(md.View(), md.MetaView(), g.drop, g.egressPort) ==
            Apply(old(md.View()), ActionOf(value), old(g.drop), old(g.egressPort))
  {
    hide Ipv4View, Mem48, MacOf, Swab32;
    ZeroAddress();
    match value {
      case Some(SetIpipEntry(src, dst, port)) =>
        md.src, md.dst, md.push := src, dst, true;
        g.drop, g.egressPort := false, port;
      case Some(SetNhEntry(dmac, port)) =>
        md.ethernet := md.ethernet.(dstAddr := dmac);
        g.drop, g.egressPort := false, port;
      case Some(DropEntry) =>
        g.drop := true;
      case Some(NoActionEntry) =>
      case None =>
    }
  }

  method MainControl(skb: Skb, md: HdrMd, g: GlobalMetadata, fwdTable: bv32 -> Option<Entry>)
    requires md.Valid() && md.src == 0 && md.dst == 0 && !md.push
    modifies md`ethernet, md`outer, md`src, md`dst, md`push, g`drop, g`egressPort
    ensures md.Valid() && md.ethernet.valid == old(md.ethernet.valid)
    ensures Control(md.View(), md.MetaView(), g.drop, g.egressPort) ==
            Main(old(md.View()), ActionOf(fwdTable(skb.ifindex)), old(g.drop), old(g.egressPort))
  {
    hide Ipv4View, EthernetView, ActionOf, Apply, Swab32;
    ZeroAddress();
    if md.outer.valid {
      ghost var before := md.View();
      ApplyEntry(md, g, fwdTable(skb.ifindex));
      ApplyKeeps(before, ActionOf(fwdTable(skb.ifindex)), old(g.drop), old(g.egressPort));
      if md.inner.valid {
        md.outer := md.outer.(valid := false);
      }
    }
  }

  lemma ApplyKeeps(hdr: Headers, action: Action, drop: bool, port: bv32)
    ensures var c := Apply(hdr, action, drop, port).hdr; c.outer == hdr.outer && c.inner == hdr.inner
  {
  }

  lemma ZeroAddress()
    ensures Swab32(0) == 0
  {
  }

  // ---- the push ----

  /** What ipip_push does to the outer header, before its checksum. */
  function Relabelled(h: Ipv4T, src: bv32, dst: bv32): Ipv4T {
    h.(srcAddr := src, dstAddr := dst, ttl := 64, protocol := 4, totalLen := h.totalLen + 20, hdrChecksum := 0)
  }

  /** The new outer header: tunnel addresses, ttl 64, protocol 4, 20 bytes more, full checksum. */
  method NewOuterHeader(h: Ipv4T, src: bv32, dst: bv32) returns (outer: Ipv4T)
    requires InRange(h) && h.valid
    ensures InRange(outer) && outer.valid
    ensures Ipv4View(outer) == PushedOuter(Ipv4View(h), Meta(Swab32(src), Swab32(dst), true))
  {
    hide Ipv4View, InRange, PushedOuter, Swab32;
    var ip := h.(srcAddr := src, dstAddr := dst, ttl := 64, protocol := 4);
    ip := ip.(totalLen := ip.totalLen + 20, hdrChecksum := 0);
    NewOuter(h, src, dst, ip);
    var chk := FullHeaderChecksum(ip);
    WithNewChecksum(h, src, dst, ip, chk);
    outer := ip.(hdrChecksum := chk);
  }

  method PushHeader(md: HdrMd)
    requires md.Valid()
    modifies md`outer, md`inner
    ensures md.Valid()
    ensures md.View() == Push(old(md.View()), md.MetaView())
  {
    hide Ipv4View, EthernetView, InRange, PushedOuter, TtlDecremented, Swab32;
    if md.push && md.outer.valid {
      md.inner := md.outer;
      md.outer := NewOuterHeader(md.outer, md.src, md.dst);
      md.inner := DecrementTtl(md.inner);
    }
  }

  lemma NewOuter(h: Ipv4T, src: bv32, dst: bv32, ip: Ipv4T)
    requires InRange(h)
    requires ip == Relabelled(h, src, dst)
    ensures InRange(ip)
  {
  }

  /** The checksum field itself is not summed, so clearing it first changes nothing. */
  lemma WithNewChecksum(h: Ipv4T, src: bv32, dst: bv32, ip: Ipv4T, chk: bv16)
    requires InRange(h)
    requires ip == Relabelled(h, src, dst)
    requires chk == ComputedChecksum(Ipv4View(ip))
    ensures InRange(ip.(hdrChecksum := chk))
    ensures Ipv4View(ip.(hdrChecksum := chk)) == PushedOuter(Ipv4View(h), Meta(Swab32(src), Swab32(dst), true))
  {
    hide Swab32, To4, To3, To13, ComputedChecksum;
    var v := Ipv4View(h);
    var g := v.(srcAddr := Swab32(src), dstAddr := Swab32(dst), ttl := 64, protocol := 4, totalLen := v.totalLen + 20);
    assert Ipv4View(ip) == g.(hdrChecksum := 0);
    ChecksumIgnoresItself(g, 0);
  }

  lemma ChecksumIgnoresItself(h: Ipv4, c: bv16)
    ensures ComputedChecksum(h.(hdrChecksum := c)) == ComputedChecksum(h)
  {
    hide Word16, WordsBefore, WordsAfter;
    OtherWords(h, h.ttl, c);
  }

  // ---- the deparser ----

  /** Writes the valid headers over the front of the packet; the bounds checks never fire. */
  method EmitHeaders(skb: Skb, md: HdrMd) returns (ret: int)
    requires md.Valid()
    requires md.ethernet.valid || (!md.outer.valid && !md.inner.valid)
    requires Width(md.View()) <= skb.data.Length
    modifies skb.data
    ensures ret == PASS
    ensures skb.data[..] == Emit(md.View()) + old(skb.data[..])[Width(md.View())..]
  {
    hide EthernetView, Ipv4View, EthernetBytes, Ipv4Bytes, InRange;
    var pkt, offset: nat := skb.data, 0;
    ghost var s := pkt[..];
    ghost var done: seq<bv8> := [];
    if md.ethernet.valid {
      if pkt.Length < 14 {
        return SHOT;
      }
      EmitEthernet(pkt, md.ethernet);
      offset := offset + 112;
      done := EthernetBytes(EthernetView(md.ethernet));
    } else {
      SpliceNothing(s);
    }
    if md.outer.valid {
      if pkt.Length < offset / 8 + 20 {
        return SHOT;
      }
      offset := EmitIpv4(pkt, offset, md.outer);
      done := Extend(s, 0, done, Ipv4Bytes(Ipv4View(md.outer)), pkt[..]);
    }
    if md.inner.valid {
      if pkt.Length < offset / 8 + 20 {
        return SHOT;
      }
      offset := EmitIpv4(pkt, offset, md.inner);
      done := Extend(s, 0, done, Ipv4Bytes(Ipv4View(md.inner)), pkt[..]);
    }
    assert done == Emit(md.View());
    return PASS;
  }

  /** What stays behind the headers when the room is adjusted is the old payload. */
  lemma AdjustedTail(p: seq<bv8>, n: nat, delta: int, fill: seq<bv8>)
    requires 14 <= n <= |p| && n + delta >= 14 && (delta >= 0 ==> |fill| == delta)
    ensures |Adjusted(p, delta, fill)| == |p| + delta
    ensures Adjusted(p, delta, fill)[n + delta..] == p[n..]
  {
  }

  /** Opens or closes room so that the headers can change length by delta. */
  method Resize(skb: Skb, consumed: nat, delta: int, fill: seq<bv8>, code: int) returns (ret: int)
    requires consumed <= skb.data.Length
    requires delta != 0 ==> 14 <= consumed && 14 <= consumed + delta && (delta > 0 ==> |fill| == delta)
    modifies skb
    ensures ret == if delta == 0 then 0 else code
    ensures skb.data == old(skb.data) || fresh(skb.data)
    ensures ret == 0 ==> skb.data.Length == old(skb.data.Length) + delta && 0 <= consumed + delta
    ensures ret == 0 ==> skb.data[consumed + delta..] == old(skb.data[..])[consumed..]
  {
    hide Adjusted;
    ret := 0;
    if delta != 0 {
      AdjustedTail(skb.data[..], consumed, delta, fill);
      ret := skb.AdjustRoom(delta, fill, code);
    }
  }

  /** Resize and emit: the new headers replace the old ones, whatever the new room held. */
  method Deparse(skb: Skb, md: HdrMd, consumed: nat, fill: seq<bv8>, code: int) returns (ret: int)
    requires md.Valid() && consumed <= skb.data.Length
    requires md.ethernet.valid || (!md.outer.valid && !md.inner.valid)
    requires md.ethernet.valid ==> consumed >= 14
    requires !md.ethernet.valid ==> consumed == 0
    requires Width(md.View()) >= consumed ==> |fill| == Width(md.View()) - consumed
    modifies skb, skb.data
    ensures ret == SHOT || ret == PASS
    ensures skb.data == old(skb.data) || fresh(skb.data)
    ensures ret == SHOT <==> Width(md.View()) != consumed && code != 0
    ensures ret == PASS ==> skb.data[..] == Emit(md.View()) + old(skb.data[..])[consumed..]
  {
    hide EthernetView, Ipv4View, InRange, Emit;
    ghost var p := skb.data[..];
    var outHeaderLength := 0;
    if md.ethernet.valid {
      outHeaderLength := outHeaderLength + 112;
    }
    if md.outer.valid {
      outHeaderLength := outHeaderLength + 160;
    }
    if md.inner.valid {
      outHeaderLength := outHeaderLength + 160;
    }
    var returnCode := Resize(skb, consumed, outHeaderLength / 8 - consumed, fill, code);
    if returnCode != 0 {
      return SHOT;
    }
    ghost var n := Width(md.View());
    assert skb.data[..][n..] == p[consumed..];
    ret := EmitHeaders(skb, md);
  }

  method Process(skb: Skb, md: HdrMd, g: GlobalMetadata, fwdTable: bv32 -> Option<Entry>, fill: seq<bv8>, code: int)
    returns (ret: int)
    requires md.Valid() && md.src == 0 && md.dst == 0 && !md.push
    requires Parse(skb.data[..]) == Accepted(md.View(), md.packetOffsetInBits / 8)
    requires |fill| == 20
    modifies md, g, skb, skb.data
    ensures ret == SHOT || ret == PASS
    ensures skb.data == old(skb.data) || fresh(skb.data)
    ensures var c := Main(old(md.View()), ActionOf(fwdTable(skb.ifindex)), old(g.drop), old(g.egressPort));
      var n := old(md.packetOffsetInBits) / 8;
      g.drop == c.drop && g.egressPort == c.port &&
      (ret == SHOT <==> c.drop || (Width(Push(c.hdr, c.meta)) != n && code != 0)) &&
      (ret == PASS ==> n <= old(skb.data.Length) && skb.data[..] == Emit(Push(c.hdr, c.meta)) + old(skb.data[..])[n..])
  {
    hide EthernetView, Ipv4View, EthernetBytes, Ipv4Bytes, InRange, Emit, Parse, ActionOf, PushedOuter, TtlDecremented;
    ghost var p, before, action := skb.data[..], md.View(), ActionOf(fwdTable(skb.ifindex));
    ParsedFits(p);
    ResizeWidth(p, action, g.drop, g.egressPort);
    var n := md.packetOffsetInBits / 8;
    MainControl(skb, md, g, fwdTable);
    var shot := g.drop;
    PushHeader(md);
    if shot {
      return SHOT;
    }
    var width := (if md.ethernet.valid then 14 else 0) + (if md.outer.valid then 20 else 0) +
                 (if md.inner.valid then 20 else 0);
    var delta := width - n;
    ret := Deparse(skb, md, n, if delta == 20 then fill else [], code);
  }

  lemma ResizeWidth(p: seq<bv8>, action: Action, drop: bool, port: bv32)
    requires Parse(p).Accepted?
    ensures var hdr := Parse(p).hdr; var c := Main(hdr, action, drop, port); var out := Push(c.hdr, c.meta);
      Width(out) - Parse(p).consumed in {-20, 0, 20} &&
      (out.ethernet.Some? <==> hdr.ethernet.Some?) && (out.ethernet.None? ==> out.outer.None? && out.inner.None?)
  {
    hide Parse, Main, Push;
    ParsedFits(p);
    var hdr := Parse(p).hdr;
    var c := Main(hdr, action, drop, port);
    ValidAfterMain(hdr, action, drop, port);
    ValidAfterPush(c.hdr, c.meta);
  }

  /** One node: tc_parse_func, then tc_ingress_func. Its verdict and the bytes it leaves are
      those of the P4 program, for every packet and table; only a failing resize drops more. */
  method Node(skb: Skb, md: HdrMd, g: GlobalMetadata, fwdTable: bv32 -> Option<Entry>, fill: seq<bv8>, code: int)
    returns (verdict: Verdict)
    requires |fill| == 20
    modifies md, g, skb, skb.data
    ensures skb.data == old(skb.data) || fresh(skb.data)
    ensures var outcome := Run(old(skb.data[..]), ActionOf(fwdTable(skb.ifindex)), old(g.drop), old(g.egressPort));
      match outcome
      case Dropped => verdict == Shot
      case Sent(bytes, port) =>
        if code != 0 && |bytes| != old(skb.data.Length) then verdict == Shot
        else (if port == 0 then verdict == ToHost else verdict == Redirect(port)) && skb.data[..] == bytes
  {
    hide EthernetView, Ipv4View, EthernetBytes, Ipv4Bytes, InRange, Emit, Parse, ActionOf, Main, Push;
    ghost var p, drop, port := skb.data[..], g.drop, g.egressPort;
    var ret := RunParser(skb, md, g);
    if ret != PASS {
      return Shot;
    }
    ParsedFits(p);
    ghost var c := Main(md.View(), ActionOf(fwdTable(skb.ifindex)), drop, port);
    EmitWidth(Push(c.hdr, c.meta));
    ret := Process(skb, md, g, fwdTable, fill, code);
    if ret != PASS {
      return Shot;
    }
    return Deliver(g.egressPort);
  }
}
