// What routing guarantees hop by hop and over any chain of hops.

module RoutingTheorems {
  import opened Wrappers
  import opened Checksum
  import opened Bytes
  import opened WireFormat
  import opened InternetHeader
  import opened Ipv4Packets
  import opened PacketChecksum
  import opened RoutingP4

  /** When a packet is forwarded: a whole IPv4 header, a ttl above 1, and a next hop that
      does not drop. */
  predicate Forwarded(p: seq<bv8>, t: Tables, drop: bool) {
    IsIpv4Packet(p) && IpHeader(p).ttl > 1 &&
    var action := NextHop(IpHeader(p).dstAddr, t);
    action.SetNh? || (action.NhNoAction? && !drop)
  }

  /** The destination MAC a forwarded packet leaves with. */
  function MacAfter(p: seq<bv8>, t: Tables): bv48
    requires |p| >= 34
  {
    var action := NextHop(IpHeader(p).dstAddr, t);
    if action.SetNh? then action.dmac else EthernetOf(p[..14]).dstAddr
  }

  /** A hop either drops or patches: exactly the forwarded packets are sent, and what is
      sent is the packet with a new destination MAC, a lower ttl and the patched checksum. It
      leaves by the port of its next hop, or, when the entry names none, by the one it came with. */
  lemma HopPatches(p: seq<bv8>, t: Tables, drop: bool, port: bv32)
    ensures Run(p, t, drop, port).Sent? <==> Forwarded(p, t, drop)
    ensures Forwarded(p, t, drop) ==> Run(p, t, drop, port).bytes == Patched(p, MacAfter(p, t))
    ensures Forwarded(p, t, drop) ==>
            var action := NextHop(IpHeader(p).dstAddr, t);
            Run(p, t, drop, port).port == if action.SetNh? then action.port else port
  {
    hide EthernetOf, Ipv4Of, EthernetBytes, Ipv4Bytes, TtlDecremented, Patched;
    if |p| >= 34 {
      PatchedBytes(p, MacAfter(p, t));
    }
  }

  /** A forwarded packet leaves with the checksum that recomputing from scratch would give
      exactly if its twenty header bytes verified: the ttl guard rules the exception out, and a
      wrong checksum is never repaired. */
  lemma HopChecksumIsRecomputed(p: seq<bv8>, t: Tables, drop: bool, port: bv32)
    requires Forwarded(p, t, drop)
    ensures var q, h := Run(p, t, drop, port).bytes, IpHeader(p);
      IsIpv4Packet(q) &&
      (IpHeader(q) == Recomputed(h) <==> Verifies(HeaderWords(h)))
  {
    hide Run, Patched, HeaderWords, TtlDecremented, Recomputed, Verifies, IpHeader, MacAfter;
    ForwardedMeans(p, t, drop);
    HopPatches(p, t, drop, port);
    PatchedHeader(p, MacAfter(p, t));
    GuardedDecrement(IpHeader(p));
  }

  /** The same over all ihl * 4 bytes, options included; the verdict is kept as well. */
  lemma HopChecksumOverOptions(p: seq<bv8>, t: Tables, drop: bool, port: bv32)
    requires Forwarded(p, t, drop) && HeaderFits(p) && HasChecksum(p)
    ensures var q := Run(p, t, drop, port).bytes;
      |q| == |p| && HeaderFits(q) && HasChecksum(q) &&
      (ChecksumRecomputed(q) <==> HeaderVerifies(p)) && (HeaderVerifies(q) <==> HeaderVerifies(p))
  {
    hide Run, Patched, HeaderVerifies, ChecksumRecomputed, HasChecksum, HeaderFits;
    HopPatches(p, t, drop, port);
    PatchRecomputes(p, MacAfter(p, t));
    PatchKeepsVerdict(p, MacAfter(p, t));
  }

  // ---- whole runs ----

  datatype Hop = Hop(tables: Tables, drop: bool, port: bv32)

  /** The packet after a chain of routers, if none drops it. */
  function Travel(p: seq<bv8>, hops: seq<Hop>): Option<seq<bv8>>
    decreases |hops|
  {
    if hops == [] then Some(p) else
    var next := Run(p, hops[0].tables, hops[0].drop, hops[0].port);
    if next.Dropped? then None else Travel(next.bytes, hops[1..])
  }

  function Ttl(p: seq<bv8>): int
    requires |p| >= 34
  {
    IpHeader(p).ttl as int
  }

  /** Everything but the destination MAC, the ttl and the checksum. */
  ghost predicate SameOutside(p: seq<bv8>, q: seq<bv8>) {
    |p| == |q| && forall k :: 0 <= k < |p| && Untouched(k) ==> p[k] == q[k]
  }

  lemma TtlLowered(p: seq<bv8>, mac: bv48)
    requires IsIpv4Packet(p) && IpHeader(p).ttl > 1
    ensures IsIpv4Packet(Patched(p, mac)) && Ttl(Patched(p, mac)) == Ttl(p) - 1 >= 1
  {
    hide Patched, IsIpv4Packet;
    PatchedHeader(p, mac);
    TtlAboveOne(IpHeader(p).ttl);
    TtlValue(IpHeader(p).ttl);
    ByteBound(IpHeader(p).ttl);
    DecrementFrame(IpHeader(p));
    hide IpHeader, TtlDecremented;
  }

  /** Over any chain of routers with arbitrary tables, a packet that is still alive after n
      hops has lost exactly n of its ttl and has at least 1 left, carries every byte
      outside the MAC, ttl and checksum unchanged, and verifies exactly if it did at the
      start. A packet with ttl t therefore survives at most t - 1 hops. */
  lemma {:induction false} RoutingSafety(p: seq<bv8>, hops: seq<Hop>)
    requires |hops| > 0 && Travel(p, hops).Some?
    ensures IsIpv4Packet(p)
    ensures var q := Travel(p, hops).value;
      IsIpv4Packet(q) && SameOutside(p, q) && Ttl(q) == Ttl(p) - |hops| >= 1 &&
      (HeaderFits(q) <==> HeaderFits(p)) && (HeaderFits(p) ==> (HeaderVerifies(q) <==> HeaderVerifies(p)))
    decreases |hops|
  {
    hide Run, Patched, IsIpv4Packet, HeaderVerifies, IpHeader;
    var t := hops[0].tables;
    HopPatches(p, t, hops[0].drop, hops[0].port);
    ForwardedMeans(p, t, hops[0].drop);
    var mac := MacAfter(p, t);
    var next := Patched(p, mac);
    TtlLowered(p, mac);
    PatchedKeeps(p, mac);
    PatchedHeader(p, mac);
    PatchKeepsLength(IpHeader(p));
    if HeaderFits(p) {
      PatchKeepsVerdict(p, mac);
    }
    if |hops| > 1 {
      RoutingSafety(next, hops[1..]);
    } else {
      assert hops[1..] == [];
    }
  }

  /** Over any chain of routers a packet arrives with the checksum that recomputing from scratch
      over all ihl * 4 bytes gives, exactly if its header checked out at the start. */
  lemma {:induction false} RunChecksum(p: seq<bv8>, hops: seq<Hop>)
    requires |hops| > 0 && Travel(p, hops).Some?
    requires |p| >= 34 && HeaderFits(p) && HasChecksum(p)
    ensures var q := Travel(p, hops).value;
      |q| == |p| && HeaderFits(q) && HasChecksum(q) && (ChecksumRecomputed(q) <==> HeaderVerifies(p))
    decreases |hops|
  {
    hide Run, HeaderVerifies, ChecksumRecomputed, HasChecksum, HeaderFits, Forwarded;
    var t := hops[0].tables;
    HopPatches(p, t, hops[0].drop, hops[0].port);
    HopChecksumOverOptions(p, t, hops[0].drop, hops[0].port);
    var q := Run(p, t, hops[0].drop, hops[0].port).bytes;
    if |hops| > 1 {
      RunChecksum(q, hops[1..]);
    } else {
      assert hops[1..] == [];
    }
  }

  lemma ForwardedMeans(p: seq<bv8>, t: Tables, drop: bool)
    requires Forwarded(p, t, drop)
    ensures IsIpv4Packet(p) && |p| >= 34 && IpHeader(p).ttl > 1
  {
  }
}
