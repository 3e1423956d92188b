// What the ipip program guarantees: push and pop are inverse across two nodes, the
// pushed header verifies, and nesting stays bounded over any run.

module IpipTheorems {
  import opened Wrappers
  import opened Checksum
  import opened Bytes
  import opened WireFormat
  import opened InternetHeader
  import opened Ipv4Packets
  import opened PacketChecksum
  import opened IpipP4

  lemma Next(eth: seq<bv8>, outer: seq<bv8>, inner: seq<bv8>, rest: seq<bv8>)
    requires |eth| == 14 && |outer| == 20 && |inner| == 20
    ensures var q := eth + outer + inner + rest; q[34..54] == inner && q[54..] == rest
  {
  }

  /** What the program does not take for a tunnelled packet: any IPv4 packet without two whole
      IPv4 headers. */
  predicate Plain(p: seq<bv8>): (r: bool)
    ensures r ==> |p| >= 34
  {
    IsIpv4Packet(p) && !(IpHeader(p).protocol == 4 && |p| >= 54)
  }

  /** Sending a plain IPv4 packet into the tunnel. */
  lemma Pushed(p: seq<bv8>, src: bv32, dst: bv32, to: bv32, drop: bool, port: bv32)
    requires Plain(p)
    ensures Run(p, SetIpip(src, dst, to), drop, port) ==
            Sent(EthernetBytes(EthernetOf(p[..14])) + Ipv4Bytes(PushedOuter(IpHeader(p), Meta(src, dst, true))) +
                 Ipv4Bytes(TtlDecremented(IpHeader(p))) + p[34..], to)
  {
    hide EthernetOf, Ipv4Of, EthernetBytes, Ipv4Bytes, PushedOuter, TtlDecremented;
  }

  /** Taking the outer header of a tunnelled packet off. */
  lemma Popped(e: Ethernet, outer: Ipv4, inner: Ipv4, rest: seq<bv8>, dmac: bv48, to: bv32, drop: bool, port: bv32)
    requires e.etherType == 0x0800 && outer.protocol == 4
    ensures Run(EthernetBytes(e) + Ipv4Bytes(outer) + Ipv4Bytes(inner) + rest, SetNh(dmac, to), drop, port) ==
            Sent(EthernetBytes(e.(dstAddr := dmac)) + Ipv4Bytes(inner) + rest, to)
  {
    hide EthernetBytes, Ipv4Bytes, Parse;
    var q := EthernetBytes(e) + Ipv4Bytes(outer) + Ipv4Bytes(inner) + rest;
    ParsedTunnel(e, outer, inner, rest);
    assert q[54..] == rest;
  }

  lemma ParsedTunnel(e: Ethernet, outer: Ipv4, inner: Ipv4, rest: seq<bv8>)
    requires e.etherType == 0x0800 && outer.protocol == 4
    ensures Parse(EthernetBytes(e) + Ipv4Bytes(outer) + Ipv4Bytes(inner) + rest) ==
            Accepted(Headers(Some(e), Some(outer), Some(inner)), 54)
  {
    hide EthernetOf, Ipv4Of, EthernetBytes, Ipv4Bytes;
    var q := EthernetBytes(e) + Ipv4Bytes(outer) + Ipv4Bytes(inner) + rest;
    assert q == EthernetBytes(e) + Ipv4Bytes(outer) + (Ipv4Bytes(inner) + rest);
    Front(EthernetBytes(e), Ipv4Bytes(outer), Ipv4Bytes(inner) + rest);
    Next(EthernetBytes(e), Ipv4Bytes(outer), Ipv4Bytes(inner), rest);
    EthernetRoundTrip(e);
    Ipv4RoundTrip(outer);
    Ipv4RoundTrip(inner);
  }

  /** Push and pop are inverse across two nodes: up to the new destination MAC, the ttl
      lowered by one modulo 256 and the checksum that goes with it, every byte of the
      packet comes out of the tunnel as it went in. */
  lemma TunnelInverse(p: seq<bv8>, src: bv32, dst: bv32, to: bv32, dmac: bv48, to': bv32,
                      drop: bool, port: bv32, drop': bool, port': bv32)
    requires Plain(p)
    ensures var first := Run(p, SetIpip(src, dst, to), drop, port);
      first.Sent? && first.port == to && |first.bytes| == |p| + 20 &&
      Run(first.bytes, SetNh(dmac, to'), drop', port') == Sent(Patched(p, dmac), to')
  {
    hide EthernetOf, Ipv4Of, EthernetBytes, Ipv4Bytes, TtlDecremented, Patched, Run;
    var e, h := EthernetOf(p[..14]), IpHeader(p);
    Pushed(p, src, dst, to, drop, port);
    Popped(e, PushedOuter(h, Meta(src, dst, true)), TtlDecremented(h), p[34..], dmac, to', drop', port');
    PatchedBytes(p, dmac);
  }

  /** The twenty bytes of the pushed header, read back as ten big-endian words, sum to
      0xFFFF, for every original header and tunnel address pair. */
  lemma PushedHeaderVerifies(p: seq<bv8>, src: bv32, dst: bv32, to: bv32, drop: bool, port: bv32)
    requires Plain(p)
    ensures var q := Run(p, SetIpip(src, dst, to), drop, port).bytes;
      |q| >= 34 && |WordsOf(q[14..34])| == 10 && Fold(0, WordsOf(q[14..34])) == 0xFFFF
  {
    hide EthernetOf, Ipv4Of, EthernetBytes, Ipv4Bytes, TtlDecremented, WithChecksum, WordsOf, Run, Fold;
    var outer := PushedOuter(IpHeader(p), Meta(src, dst, true));
    Pushed(p, src, dst, to, drop, port);
    var q := Run(p, SetIpip(src, dst, to), drop, port).bytes;
    var e, rest := EthernetBytes(EthernetOf(p[..14])), Ipv4Bytes(TtlDecremented(IpHeader(p))) + p[34..];
    assert q == e + Ipv4Bytes(outer) + rest;
    Front(e, Ipv4Bytes(outer), rest);
    WordsOfHeader(outer);
    var h := IpHeader(p);
    ComputedVerifies(h.(srcAddr := src, dstAddr := dst, ttl := 64, protocol := 4, totalLen := h.totalLen + 20));
  }

  /** The packet that comes out of the tunnel: set_ipip at one node, set_nh at the next. */
  function Tunnelled(p: seq<bv8>, src: bv32, dst: bv32, to: bv32, dmac: bv48, to': bv32,
                     drop: bool, port: bv32, drop': bool, port': bv32): Outcome
  {
    var first := Run(p, SetIpip(src, dst, to), drop, port);
    if first.Dropped? then Dropped else Run(first.bytes, SetNh(dmac, to'), drop', port')
  }

  /** The checksum leaving the tunnel: for a header with a version, what comes out is the
      original at ttl - 1 modulo 256 with its checksum computed from scratch exactly if the twenty
      header bytes verified going in, for every ttl. */
  lemma TunnelChecksum(p: seq<bv8>, src: bv32, dst: bv32, to: bv32, dmac: bv48, to': bv32,
                       drop: bool, port: bv32, drop': bool, port': bv32)
    requires Plain(p) && IpHeader(p).version != 0
    ensures var out := Tunnelled(p, src, dst, to, dmac, to', drop, port, drop', port');
      out.Sent? && IsIpv4Packet(out.bytes) &&
      (IpHeader(out.bytes) == Recomputed(IpHeader(p)) <==> Verifies(WordsOf(p[14..34])))
  {
    hide Run, Patched, HeaderWords, TtlDecremented, Recomputed, IsIpv4Packet, IpHeader, Verifies;
    PlainMeans(p);
    TunnelInverse(p, src, dst, to, dmac, to', drop, port, drop', port');
    PatchedHeader(p, dmac);
    HeaderBytesVerify(p);
    VersionedDecrement(IpHeader(p));
  }

  lemma PlainMeans(p: seq<bv8>)
    requires Plain(p)
    ensures IsIpv4Packet(p) && |p| >= 34
  {
  }

  lemma HeaderBytesVerify(p: seq<bv8>)
    requires |p| >= 34
    ensures WordsOf(p[14..34]) == HeaderWords(IpHeader(p))
  {
    hide Ipv4Of, Ipv4Bytes, WordsOf, HeaderWords;
    Ipv4RoundTripBytes(p[14..34]);
    WordsOfHeader(IpHeader(p));
  }

  /** And over all ihl * 4 bytes, options included; the verdict is kept as well. */
  lemma TunnelChecksumOverOptions(p: seq<bv8>, src: bv32, dst: bv32, to: bv32, dmac: bv48, to': bv32,
                                  drop: bool, port: bv32, drop': bool, port': bv32)
    requires Plain(p) && HeaderFits(p) && HasChecksum(p)
    ensures var out := Tunnelled(p, src, dst, to, dmac, to', drop, port, drop', port');
      out.Sent? && |out.bytes| == |p| && HeaderFits(out.bytes) && HasChecksum(out.bytes) &&
      (ChecksumRecomputed(out.bytes) <==> HeaderVerifies(p)) && (HeaderVerifies(out.bytes) <==> HeaderVerifies(p))
  {
    hide Run, Patched, HeaderVerifies, ChecksumRecomputed, HasChecksum, HeaderFits;
    TunnelInverse(p, src, dst, to, dmac, to', drop, port, drop', port');
    PatchRecomputes(p, dmac);
    PatchKeepsVerdict(p, dmac);
  }

  // ---- nesting ----

  /** Number of IPv4 headers in a row, starting at the IP header b begins with. */
  function Depth(b: seq<bv8>): nat
    decreases |b|
  {
    if |b| < 20 then 0
    else if Ipv4Of(b[..20]).protocol != 4 then 1
    else 1 + Depth(b[20..])
  }

  /** The row of headers ends in a whole header that carries something else. */
  predicate Untruncated(b: seq<bv8>)
    decreases |b|
  {
    |b| >= 20 && (Ipv4Of(b[..20]).protocol == 4 ==> Untruncated(b[20..]))
  }

  /** An untruncated IPv4 packet of nesting depth d. */
  predicate Nested(p: seq<bv8>, d: nat) {
    IsIpv4Packet(p) && Untruncated(p[14..]) && Depth(p[14..]) == d
  }

  lemma HeaderThenRest(h: Ipv4, rest: seq<bv8>)
    ensures var b := Ipv4Bytes(h) + rest; b[..20] == Ipv4Bytes(h) && b[20..] == rest && Ipv4Of(b[..20]) == h
  {
    hide Ipv4Of, Ipv4Bytes;
    Ipv4RoundTrip(h);
  }

  lemma DepthOfHeader(h: Ipv4, rest: seq<bv8>)
    ensures h.protocol != 4 ==> Depth(Ipv4Bytes(h) + rest) == 1 && Untruncated(Ipv4Bytes(h) + rest)
    ensures h.protocol == 4 ==> Depth(Ipv4Bytes(h) + rest) == 1 + Depth(rest)
    ensures h.protocol == 4 ==> (Untruncated(Ipv4Bytes(h) + rest) <==> Untruncated(rest))
  {
    hide Ipv4Of, Ipv4Bytes;
    HeaderThenRest(h, rest);
  }

  lemma PacketParts(p: seq<bv8>)
    requires |p| >= 34
    ensures p[14..][..20] == p[14..34] && p[14..][20..] == p[34..]
    ensures Ipv4Bytes(IpHeader(p)) + p[34..] == p[14..]
  {
    hide Ipv4Of, Ipv4Bytes;
    Ipv4RoundTripBytes(p[14..34]);
  }

  /** The Ethernet header after the control: at most the destination is new. */
  function SentEthernet(p: seq<bv8>, action: Action): Ethernet
    requires |p| >= 14
  {
    var e := EthernetOf(p[..14]);
    if action.SetNh? then e.(dstAddr := action.dmac) else e
  }

  /** Whatever the entry, a tunnelled packet that is sent loses exactly its outer header. */
  lemma PoppedBytes(p: seq<bv8>, action: Action, drop: bool, port: bv32)
    requires IsIpv4Packet(p) && IpHeader(p).protocol == 4 && |p| >= 54
    requires Run(p, action, drop, port).Sent?
    ensures Run(p, action, drop, port).bytes == EthernetBytes(SentEthernet(p, action)) + p[34..]
  {
    hide EthernetOf, EthernetBytes, Ipv4Of, Ipv4Bytes;
    Ipv4RoundTripBytes(p[34..54]);
    assert p[34..54] + p[54..] == p[34..];
    var e, ip, rest := EthernetBytes(SentEthernet(p, action)), Ipv4Bytes(Ipv4Of(p[34..54])), p[54..];
    assert e + [] + ip + rest == e + (ip + rest);
  }

  /** A plain packet that is sent without entering the tunnel keeps its IP part. */
  lemma PlainBytes(p: seq<bv8>, action: Action, drop: bool, port: bv32)
    requires Plain(p) && !action.SetIpip?
    requires Run(p, action, drop, port).Sent?
    ensures Run(p, action, drop, port).bytes == EthernetBytes(SentEthernet(p, action)) + p[14..]
  {
    hide EthernetOf, EthernetBytes, Ipv4Of, Ipv4Bytes;
    PacketParts(p);
    var e, ip, rest := EthernetBytes(SentEthernet(p, action)), Ipv4Bytes(IpHeader(p)), p[34..];
    assert e + ip + [] + rest == e + (ip + rest);
  }

  lemma PushStep(p: seq<bv8>, src: bv32, dst: bv32, to: bv32, drop: bool, port: bv32)
    requires IsIpv4Packet(p) && IpHeader(p).protocol != 4
    ensures Run(p, SetIpip(src, dst, to), drop, port).Sent?
    ensures Nested(Run(p, SetIpip(src, dst, to), drop, port).bytes, 2)
  {
    hide EthernetOf, EthernetBytes, Ipv4Of, Ipv4Bytes, WithChecksum, Run, IsIpv4Packet, Depth, Untruncated;
    TypeOf(p);
    var e, h := EthernetOf(p[..14]), IpHeader(p);
    var outer, inner := PushedOuter(h, Meta(src, dst, true)), TtlDecremented(h);
    Pushed(p, src, dst, to, drop, port);
    var tail := Ipv4Bytes(inner) + p[34..];
    var b := Ipv4Bytes(outer) + tail;
    assert EthernetBytes(e) + Ipv4Bytes(outer) + Ipv4Bytes(inner) + p[34..] == EthernetBytes(e) + b;
    KeptFields(h, Meta(src, dst, true));
    DepthOfHeader(inner, p[34..]);
    DepthOfHeader(outer, tail);
    EthernetThenRest(e, b);
  }

  lemma KeptFields(h: Ipv4, meta: Meta)
    ensures PushedOuter(h, meta).protocol == 4 && TtlDecremented(h).protocol == h.protocol
  {
  }

  lemma TypeOf(p: seq<bv8>)
    requires IsIpv4Packet(p)
    ensures |p| >= 34 && EthernetOf(p[..14]).etherType == 0x0800
  {
  }

  /** What one node does to the nesting: a tunnelled packet loses a level whatever the
      entry; a plain one gains a level exactly at a set_ipip entry. */
  lemma NestingStep(p: seq<bv8>, d: nat, action: Action, drop: bool, port: bv32)
    requires Nested(p, d) && Run(p, action, drop, port).Sent?
    ensures d >= 1
    ensures Nested(Run(p, action, drop, port).bytes, if d >= 2 then d - 1 else if action.SetIpip? then 2 else 1)
  {
    hide EthernetOf, EthernetBytes, Ipv4Of, Ipv4Bytes, Run;
    PacketParts(p);
    var e := SentEthernet(p, action);
    if IpHeader(p).protocol == 4 {
      DepthPositive(p[34..]);
      PoppedBytes(p, action, drop, port);
      EthernetThenRest(e, p[34..]);
    } else if action.SetIpip? {
      PushStep(p, action.src, action.dst, action.port, drop, port);
    } else {
      PlainBytes(p, action, drop, port);
      EthernetThenRest(e, p[14..]);
    }
  }

  lemma DepthPositive(b: seq<bv8>)
    requires Untruncated(b)
    ensures Depth(b) >= 1 && |b| >= 20
  {
  }

  datatype Hop = Hop(action: Action, drop: bool, port: bv32)

  /** The packet after a run through nodes, if no node drops it. */
  function Travel(p: seq<bv8>, hops: seq<Hop>): Option<seq<bv8>>
    decreases |hops|
  {
    if hops == [] then Some(p) else
    var next := Run(p, hops[0].action, hops[0].drop, hops[0].port);
    if next.Dropped? then None else Travel(next.bytes, hops[1..])
  }

  /** Over any run, with any tables, nesting falls by one per hop down to 2 and never
      rises above 2 again, even when every port is a set_ipip port. */
  lemma {:induction false} NestingBounded(p: seq<bv8>, d: nat, hops: seq<Hop>) returns (d': nat)
    requires Nested(p, d) && Travel(p, hops).Some?
    ensures Nested(Travel(p, hops).value, d')
    ensures 1 <= d' <= if d - |hops| >= 2 then d - |hops| else 2
    decreases |hops|
  {
    if hops == [] {
      DepthPositive(p[14..]);
      d' := d;
    } else {
      hide Run, Nested;
      var q := Run(p, hops[0].action, hops[0].drop, hops[0].port);
      NestingStep(p, d, hops[0].action, hops[0].drop, hops[0].port);
      d' := NestingBounded(q.bytes, if d >= 2 then d - 1 else if hops[0].action.SetIpip? then 2 else 1, hops[1..]);
    }
  }

  // ---- the table miss ----

  /** The design drops on a table miss. When the lookup returns nothing at all, the code runs
      no action instead; the two agree exactly when the packet is dropped anyway or no
      lookup takes place. */
  lemma NullLookupExactly(p: seq<bv8>, drop: bool, port: bv32)
    ensures Run(p, NoAction, drop, port) == Run(p, Drop, drop, port) <==>
            drop || Parse(p).Rejected? || Parse(p).hdr.outer.None?
  {
    hide Parse, Emit, Push;
    ParsedFits(p);
  }

  /** An IPv4 header with nothing behind it, in an Ethernet frame of zeros. */
  const BARE_HEADER := Ipv4(4, 5, 0, 20, 0, 0, 0, 64, 17, 0, 0, 0)

  function BarePacket(): seq<bv8> {
    EthernetBytes(Ethernet(0, 0, 0x0800)) + Ipv4Bytes(BARE_HEADER)
  }

  lemma BareIsPlain()
    ensures Plain(BarePacket())
  {
    hide EthernetOf, EthernetBytes, Ipv4Of, Ipv4Bytes;
    var e := Ethernet(0, 0, 0x0800);
    var p := BarePacket();
    assert p == EthernetBytes(e) + Ipv4Bytes(BARE_HEADER) + [];
    EthernetThenRest(e, Ipv4Bytes(BARE_HEADER));
    Front(EthernetBytes(e), Ipv4Bytes(BARE_HEADER), []);
    Ipv4RoundTrip(BARE_HEADER);
  }

  /** One packet where they differ: the design drops it, the code sends it on as it came. */
  lemma NullLookupDiffers(port: bv32)
    ensures Run(BarePacket(), Drop, false, port) == Dropped
    ensures Run(BarePacket(), NoAction, false, port) == Sent(BarePacket(), port)
  {
    hide BarePacket, Run;
    BareIsPlain();
    NoActionSends(BarePacket(), port);
  }

  /** Without an action a plain packet is sent unchanged, and a drop action drops it. */
  lemma NoActionSends(p: seq<bv8>, port: bv32)
    requires Plain(p)
    ensures Run(p, NoAction, false, port) == Sent(p, port) && Run(p, Drop, false, port) == Dropped
  {
    hide EthernetBytes, Ipv4Bytes, EthernetOf, Ipv4Of;
    EthernetRoundTripBytes(p[..14]);
    Ipv4RoundTripBytes(p[14..34]);
    assert p == p[..14] + p[14..34] + p[34..];
  }
}
