// The ipip program on bytes: for every packet and table entry, what leaves the node and by
// which port, said without parser, headers or structs.

module IpipBytes {
  import opened Wrappers
  import opened Checksum
  import opened Bytes
  import opened WireFormat
  import opened HeaderLayout
  import opened InternetHeader
  import opened Ipv4Packets
  import opened IpipP4
  import opened IpipTheorems
  import opened Ipip

  // ---- the reference ----

  /** Two IPv4 headers in a row. */
  predicate Tunnelled(p: seq<bv8>)
    requires |p| >= 34
  {
    p[23] == 4 && |p| >= 54
  }

  /** A tunnelled packet without its outer header; any other as it is. */
  function Decapsulated(p: seq<bv8>): (q: seq<bv8>)
    requires |p| >= 34
    ensures |q| >= 34
  {
    if Tunnelled(p) then p[..14] + p[34..] else p
  }

  /** The new outer header up to its checksum: the first ten bytes of the old one with a length
      20 greater, ttl 64 and protocol 4. */
  function OuterHead(p: seq<bv8>): (r: seq<bv8>)
    requires |p| >= 34
    ensures |r| == 10
  {
    [p[14], p[15]] + Half(Be16(p[16], p[17]) + 20) + p[18..22] + [64, 4]
  }

  /** A packet with a new outer header in front of the old one, which loses a ttl. */
  function Encapsulated(p: seq<bv8>, src: seq<bv8>, dst: seq<bv8>): (q: seq<bv8>)
    requires |p| >= 34 && |src| == 4 && |dst| == 4
    ensures |q| == |p| + 20
  {
    var checksum := FullChecksum(WordsOf(OuterHead(p) + (src + dst)));
    p[..14] + (OuterHead(p) + Half(Word16(checksum)) + (src + dst)) + Lowered(p)[14..]
  }

  /** What becomes of a packet with an IPv4 header, for the entry the table has for its port. */
  function Switched(p: seq<bv8>, value: Option<Entry>, drop: bool, port: bv32): Outcome
    requires |p| >= 34
  {
    match value
    case Some(SetIpipEntry(src, dst, to)) =>
      Sent(if Tunnelled(p) then Decapsulated(p) else Encapsulated(p, Mem32(src), Mem32(dst)), to)
    case Some(SetNhEntry(dmac, to)) => Sent(Mem48(dmac) + Decapsulated(p)[6..], to)
    case Some(DropEntry) => Dropped
    case _ => if drop then Dropped else Sent(Decapsulated(p), port)
  }

  /** And of any packet: another type is dropped, one too short for the lookup passes. */
  function Expected(p: seq<bv8>, value: Option<Entry>, drop: bool, port: bv32): Outcome {
    if |p| >= 14 && !(p[12] == 0x08 && p[13] == 0x00) then Dropped
    else if |p| >= 34 then Switched(p, value, drop, port)
    else if drop then Dropped else Sent(p, port)
  }

  // ---- packets that do not enter the tunnel ----

  lemma ShortPacket(p: seq<bv8>, action: Action, drop: bool, port: bv32)
    requires |p| < 14 || (|p| < 34 && EthernetOf(p[..14]).etherType == 0x0800)
    ensures Run(p, action, drop, port) == if drop then Dropped else Sent(p, port)
  {
    hide EthernetOf, EthernetBytes;
    if |p| >= 14 {
      EthernetRoundTripBytes(p[..14]);
    }
    assert p[0..] == p;
  }

  /** With a whole IPv4 header, the entry alone decides whether and where the packet is sent. */
  lemma SentWhere(p: seq<bv8>, action: Action, drop: bool, port: bv32)
    requires IsIpv4Packet(p)
    ensures Run(p, action, drop, port).Sent? <==> !(action.Drop? || (action.NoAction? && drop))
    ensures Run(p, action, drop, port).Sent? ==>
            Run(p, action, drop, port).port == if action.NoAction? then port else action.port
  {
    hide Parse, Emit, Push, Main;
    HasOuter(p);
    DecidedByEntry(Parse(p).hdr, action, drop, port);
  }

  lemma DecidedByEntry(hdr: Headers, action: Action, drop: bool, port: bv32)
    requires hdr.outer.Some?
    ensures var c := Main(hdr, action, drop, port);
      (c.drop <==> action.Drop? || (action.NoAction? && drop)) &&
      (!c.drop ==> c.port == if action.NoAction? then port else action.port)
  {
    hide Apply;
    ApplyDecides(hdr, action, drop, port);
  }

  lemma ApplyDecides(hdr: Headers, action: Action, drop: bool, port: bv32)
    ensures var c := Apply(hdr, action, drop, port);
      (c.drop <==> action.Drop? || (action.NoAction? && drop)) &&
      (!c.drop ==> c.port == if action.NoAction? then port else action.port)
  {
    hide Redirected;
    match action
    case SetIpip(src, dst, to) =>
    case SetNh(dmac, to) =>
    case Drop =>
    case NoAction =>
  }

  lemma HasOuter(p: seq<bv8>)
    requires IsIpv4Packet(p)
    ensures Parse(p).Accepted? && Parse(p).hdr.outer.Some?
  {
    hide EthernetOf, Ipv4Of;
  }

  lemma SentMac(p: seq<bv8>, action: Action)
    requires |p| >= 14
    ensures EthernetBytes(SentEthernet(p, action)) == if action.SetNh? then Mac(action.dmac) + p[6..14] else p[..14]
  {
    hide EthernetOf, EthernetBytes, Mac;
    EthernetRoundTripBytes(p[..14]);
    if action.SetNh? {
      NewDestination(EthernetOf(p[..14]), action.dmac);
      SpliceFront(p[..14], Mac(action.dmac));
      assert p[..14][6..] == p[6..14];
    }
  }

  /** Every packet that does not enter the tunnel. */
  lemma PassedOn(p: seq<bv8>, action: Action, drop: bool, port: bv32)
    requires IsIpv4Packet(p) && (Tunnelled(p) || !action.SetIpip?) && Run(p, action, drop, port).Sent?
    ensures Run(p, action, drop, port).bytes ==
            if action.SetNh? then Mac(action.dmac) + Decapsulated(p)[6..] else Decapsulated(p)
  {
    hide EthernetOf, EthernetBytes, Ipv4Of, Run, Mac;
    HeaderFieldBytes(p);
    SentMac(p, action);
    if Tunnelled(p) {
      PoppedBytes(p, action, drop, port);
      assert (p[..14] + p[34..])[6..] == p[6..14] + p[34..];
    } else {
      PlainBytes(p, action, drop, port);
      assert p[6..] == p[6..14] + p[14..] && p == p[..14] + p[14..];
    }
  }

  // ---- the pushed header ----

  lemma FirstRowBits(version: bv4, ihl: bv4, diffserv: bv8, t: bv16, u: bv16)
    ensures var x, y := Row(PackRow0(version, ihl, diffserv, t)), Row(PackRow0(version, ihl, diffserv, u));
      x[0] == y[0] && x[1] == y[1] && y[2] == Hi(u) && y[3] == Lo(u)
  {
  }

  lemma FirstRow(h: Ipv4, g: Ipv4)
    requires g.version == h.version && g.ihl == h.ihl && g.diffserv == h.diffserv
    ensures var x := Row(Ipv4Row0(h)); Row(Ipv4Row0(g)) == [x[0], x[1]] + Half(g.totalLen)
  {
    hide Row, PackRow0, Hi, Lo;
    FirstRowBits(h.version, h.ihl, h.diffserv, h.totalLen, g.totalLen);
  }

  lemma FirstRows(h: Ipv4)
    ensures var a := Ipv4Bytes(h);
      a[0] == Row(Ipv4Row0(h))[0] && a[1] == Row(Ipv4Row0(h))[1] && a[4..8] == Row(Ipv4Row1(h))
  {
    hide Row, Ipv4Row0, Ipv4Row1, Ipv4Row2;
  }

  /** A header that differs in the length, from the ttl on, or both. */
  lemma HeadBytes(h: Ipv4, g: Ipv4)
    requires g == h.(totalLen := g.totalLen, ttl := g.ttl, protocol := g.protocol, hdrChecksum := g.hdrChecksum,
                     srcAddr := g.srcAddr, dstAddr := g.dstAddr)
    ensures var a, b := Ipv4Bytes(h), Ipv4Bytes(g);
      b == [a[0], a[1]] + Half(g.totalLen) + a[4..8] + [g.ttl, g.protocol] + Half(g.hdrChecksum) +
           (Row(g.srcAddr) + Row(g.dstAddr))
  {
    hide Row, PackRow1, PackRow2, Ipv4Row0, Hi, Lo;
    FirstRow(h, g);
    FirstRows(h);
    hide Ipv4Bytes;
    ThirdRow(g);
    assert FirstEight(g) == Row(Ipv4Row0(g)) + Row(Ipv4Row1(h));
  }

  lemma {:induction false} WordCount(b: seq<bv8>)
    ensures |WordsOf(b)| == |b| / 2
    decreases |b|
  {
    if |b| >= 2 {
      WordCount(b[2..]);
    }
  }

  /** The words of a serialized header on both sides of its checksum. */
  lemma WordsAround(head: seq<bv8>, c: bv16, tail: seq<bv8>, h: Ipv4)
    requires |head| == 10 && |tail| == 8 && Ipv4Bytes(h) == head + Half(c) + tail
    ensures WordsOf(head + tail) == WordsBefore(h) + [TtlWord(h)] + WordsAfter(h)
  {
    hide WordsOf, Ipv4Bytes, WordsBefore, TtlWord, WordsAfter, Hi, Lo, Val16;
    WordsOfHeader(h);
    WordsOfConcat(head + Half(c), tail);
    WordsOfConcat(head, Half(c));
    WordsOfConcat(head, tail);
    WordCount(head);
    WordsOfTwo(Hi(c), Lo(c));
    ThreeParts(WordsOf(head), WordsOf(Half(c)), WordsOf(tail),
               WordsBefore(h) + [TtlWord(h)], [Val16(h.hdrChecksum)], WordsAfter(h));
  }

  lemma ThreeParts<T>(a: seq<T>, b: seq<T>, c: seq<T>, x: seq<T>, y: seq<T>, z: seq<T>)
    requires a + b + c == x + y + z && |a| == |x| && |b| == |y|
    ensures a == x && c == z
  {
    assert a == (a + b + c)[..|a|] && x == (x + y + z)[..|x|];
    assert c == (a + b + c)[|a| + |b|..] && z == (x + y + z)[|x| + |y|..];
  }

  lemma HeaderParts(p: seq<bv8>)
    requires |p| >= 34
    ensures var a := Ipv4Bytes(IpHeader(p)); a[0] == p[14] && a[1] == p[15] && a[4..8] == p[18..22]
  {
    hide Ipv4Of, Ipv4Bytes;
    Ipv4RoundTripBytes(p[14..34]);
    SliceOfSlice(p, 14, 20, 4, 8);
  }

  /** The new outer header before its checksum is computed. */
  function WithTunnel(h: Ipv4, src: bv32, dst: bv32): Ipv4 {
    h.(srcAddr := src, dstAddr := dst, ttl := 64, protocol := 4, totalLen := h.totalLen + 20)
  }

  lemma TunnelHeaderParts(p: seq<bv8>, src: bv32, dst: bv32, c: bv16)
    requires |p| >= 34
    ensures Ipv4Bytes(WithTunnel(IpHeader(p), src, dst).(hdrChecksum := c)) ==
            OuterHead(p) + Half(c) + (Row(src) + Row(dst))
  {
    hide Row, Half, Be16, Ipv4Of, Ipv4Bytes;
    var h := IpHeader(p);
    HeaderFieldBytes(p);
    HeaderParts(p);
    HeadBytes(h, WithTunnel(h, src, dst).(hdrChecksum := c));
  }

  lemma TunnelHeaderChecksum(v: Ipv4, head: seq<bv8>, tail: seq<bv8>)
    requires |head| == 10 && |tail| == 8
    requires Ipv4Bytes(WithChecksum(v)) == head + Half(ComputedChecksum(v)) + tail
    ensures ComputedChecksum(v) == Word16(FullChecksum(WordsOf(head + tail)))
  {
    hide Half, Ipv4Bytes, ComputedChecksum, FullChecksum, WordsOf, Val16, Word16, WordsBefore, TtlWord, WordsAfter;
    var g := WithChecksum(v);
    WordsAround(head, g.hdrChecksum, tail, g);
    OtherWords(v, v.ttl, g.hdrChecksum);
    TtlWordKept(v, g);
    ComputedIsFull(v);
    WordOfVal16(g.hdrChecksum, FullChecksum(WordsOf(head + tail)));
  }

  /** The header that is pushed, in bytes. */
  lemma PushedBytes(p: seq<bv8>, src: bv32, dst: bv32)
    requires |p| >= 34
    ensures var checksum := FullChecksum(WordsOf(OuterHead(p) + (Row(src) + Row(dst))));
      Ipv4Bytes(PushedOuter(IpHeader(p), Meta(src, dst, true))) ==
      OuterHead(p) + Half(Word16(checksum)) + (Row(src) + Row(dst))
  {
    hide Row, Half, OuterHead, IpHeader, Ipv4Bytes, ComputedChecksum, FullChecksum, WordsOf, Word16;
    var v := WithTunnel(IpHeader(p), src, dst);
    TunnelHeaderParts(p, src, dst, ComputedChecksum(v));
    TunnelHeaderChecksum(v, OuterHead(p), Row(src) + Row(dst));
  }

  lemma TtlWordKept(v: Ipv4, g: Ipv4)
    requires g.ttl == v.ttl && g.protocol == v.protocol
    ensures TtlWord(g) == TtlWord(v)
  {
  }

  /** The header that is left inside, and everything behind it. */
  lemma InnerBytes(p: seq<bv8>)
    requires |p| >= 34
    ensures Ipv4Bytes(TtlDecremented(IpHeader(p))) + p[34..] == Lowered(p)[14..]
  {
    hide EthernetOf, EthernetBytes, Ipv4Of, Ipv4Bytes, TtlDecremented, Mac, Lowered, Patched;
    PatchedBytes(p, 0);
    PatchedIsLowered(p, 0);
    var e, inner := EthernetBytes(EthernetOf(p[..14]).(dstAddr := 0)), Ipv4Bytes(TtlDecremented(IpHeader(p)));
    assert e + inner + p[34..] == Mac(0) + Lowered(p)[6..];
    assert (e + inner + p[34..])[14..] == inner + p[34..];
    assert (Mac(0) + Lowered(p)[6..])[14..] == Lowered(p)[14..];
  }

  lemma PushedOn(p: seq<bv8>, src: bv32, dst: bv32, to: bv32, drop: bool, port: bv32)
    requires Plain(p)
    ensures Run(p, SetIpip(src, dst, to), drop, port) == Sent(Encapsulated(p, Row(src), Row(dst)), to)
  {
    hide EthernetOf, EthernetBytes, Ipv4Of, Ipv4Bytes, TtlDecremented, PushedOuter, Run, OuterHead, Lowered, Row, Half,
      Word16, FullChecksum, WordsOf;
    Pushed(p, src, dst, to, drop, port);
    EthernetRoundTripBytes(p[..14]);
    PushedBytes(p, src, dst);
    InnerBytes(p);
    var outer := Ipv4Bytes(PushedOuter(IpHeader(p), Meta(src, dst, true)));
    var inner := Ipv4Bytes(TtlDecremented(IpHeader(p)));
    assert p[..14] + outer + inner + p[34..] == p[..14] + outer + (inner + p[34..]);
  }

  /** Byte by byte, what a plain packet sent into the tunnel becomes: the addresses are those of
      the entry, and what is not named here is the checksum in bytes 24 and 25. */
  lemma PushedFields(p: seq<bv8>, src: bv32, dst: bv32, to: bv32, drop: bool, port: bv32)
    requires Plain(p)
    ensures Run(p, SetIpip(src, dst, to), drop, port).Sent?
    ensures Run(p, SetIpip(src, dst, to), drop, port).port == to
    ensures var q := Run(p, SetIpip(src, dst, to), drop, port).bytes;
      |q| == |p| + 20 && q[..14] == p[..14] && q[14..16] == p[14..16] &&
      Be16(q[16], q[17]) == Be16(p[16], p[17]) + 20 && q[18..22] == p[18..22] && q[22] == 64 && q[23] == 4 &&
      q[26..30] == Row(src) && q[30..34] == Row(dst) && q[34..] == Lowered(p)[14..]
  {
    hide Row, Hi, Lo, Be16, Run, Lowered, Plain, Word16, FullChecksum, WordsOf;
    PushedOn(p, src, dst, to, drop, port);
    HalfRoundTrip(Be16(p[16], p[17]) + 20);
  }

  // ---- the program meets it ----

  /** For every packet, every entry or none, and every drop flag and port to start from. */
  lemma RunExpected(p: seq<bv8>, value: Option<Entry>, drop: bool, port: bv32)
    ensures Run(p, ActionOf(value), drop, port) == Expected(p, value, drop, port)
  {
    hide EthernetOf, Ipv4Of, Run, Encapsulated, Row, Swab32, Mem32, Mac, MacOf, Mem48;
    if |p| >= 14 {
      TypeBytes(p);
    }
    if |p| < 14 || (|p| < 34 && EthernetOf(p[..14]).etherType == 0x0800) {
      ShortPacket(p, ActionOf(value), drop, port);
    } else if EthernetOf(p[..14]).etherType != 0x0800 {
      OtherType(p, ActionOf(value), drop, port);
    } else {
      RunSwitched(p, value, drop, port);
    }
  }

  lemma OtherType(p: seq<bv8>, action: Action, drop: bool, port: bv32)
    requires |p| >= 14 && EthernetOf(p[..14]).etherType != 0x0800
    ensures Run(p, action, drop, port) == Dropped
  {
    hide EthernetOf, Ipv4Of, Emit, Push, Main;
  }

  lemma RunSwitched(p: seq<bv8>, value: Option<Entry>, drop: bool, port: bv32)
    requires IsIpv4Packet(p)
    ensures Run(p, ActionOf(value), drop, port) == Switched(p, value, drop, port)
  {
    hide EthernetOf, Ipv4Of, Run, Encapsulated, Decapsulated, Row, Swab32, Mem32, Mac, MacOf, Mem48;
    var action := ActionOf(value);
    SentWhere(p, action, drop, port);
    HeaderFieldBytes(p);
    if value.Some? && value.value.SetIpipEntry? && !Tunnelled(p) {
      MemOfSwab32(value.value.src);
      MemOfSwab32(value.value.dst);
      PushedOn(p, action.src, action.dst, action.port, drop, port);
    } else if Run(p, action, drop, port).Sent? {
      PassedOn(p, action, drop, port);
      if value.Some? && value.value.SetNhEntry? {
        MacRoundTripBytes(Mem48(value.value.dmac));
      }
    }
  }
}
