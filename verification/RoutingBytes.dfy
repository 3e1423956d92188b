// The routing program on bytes: for every packet and any two tables, what leaves the router
// and by which port, said without parser, headers or structs.

module RoutingBytes {
  import opened Wrappers
  import opened Bytes
  import opened WireFormat
  import opened HeaderLayout
  import opened Ipv4Packets
  import opened RoutingP4
  import opened RoutingTheorems
  import opened Routing

  /** The next-hop index of a packet: what the FIB has for the four bytes of its destination,
      and 0 when the FIB has nothing or no index. */
  function IndexFor(p: seq<bv8>, fibTable: bv32 -> Option<FibEntry>): bv32
    requires |p| >= 34
  {
    match fibTable(Le32(p[30], p[31], p[32], p[33]))
    case Some(SetNhidEntry(index)) => index
    case _ => 0
  }

  /** What a router does to a packet and where it sends it. */
  function Expected(p: seq<bv8>, fibTable: bv32 -> Option<FibEntry>, nhTable: bv32 -> Option<NhEntry>,
                    drop: bool, port: bv32): Outcome
  {
    if |p| < 34 || !(p[12] == 0x08 && p[13] == 0x00) || p[22] == 0 || p[22] == 1 then Dropped else
    match nhTable(IndexFor(p, fibTable))
    case Some(SetNhEntry(dmac, to)) => Sent(Mem48(dmac) + Lowered(p)[6..], to)
    case Some(NhDropEntry) => Dropped
    case _ => if drop then Dropped else Sent(Lowered(p), port)
  }

  lemma AddressKey(a: bv8, b: bv8, c: bv8, d: bv8, x: bv32)
    requires Row(x) == [a, b, c, d]
    ensures Swab32(x) == Le32(a, b, c, d)
  {
    hide Row, Swab32, Le32, Be32;
    RowRoundTrip(x);
    SwabWord(a, b, c, d);
    MemOfSwab32(Le32(a, b, c, d));
  }

  lemma AboveOne(ttl: bv8)
    ensures ttl > 1 <==> !(ttl == 0 || ttl == 1)
  {
  }

  /** The next hop the P4 program finds is the entry behind that index. */
  lemma FoundEntry(p: seq<bv8>, fibTable: bv32 -> Option<FibEntry>, nhTable: bv32 -> Option<NhEntry>)
    requires |p| >= 34
    ensures NextHop(IpHeader(p).dstAddr, TablesOf(fibTable, nhTable)) == NhActionOf(nhTable(IndexFor(p, fibTable)))
  {
    hide Row, Swab32, Le32, IpHeader, NhActionOf;
    HeaderFieldBytes(p);
    assert p[30..34] == [p[30], p[31], p[32], p[33]];
    AddressKey(p[30], p[31], p[32], p[33], IpHeader(p).dstAddr);
  }

  lemma KeptMac(p: seq<bv8>)
    requires |p| >= 34
    ensures Mac(EthernetOf(p[..14]).dstAddr) + Lowered(p)[6..] == Lowered(p)
  {
    hide Mac, MacOf;
    MacRoundTripBytes(p[..6]);
    assert p[..14][..6] == p[..6] == Lowered(p)[..6];
  }

  /** For every packet, any tables, and every drop flag and port to start from. */
  lemma RunExpected(p: seq<bv8>, fibTable: bv32 -> Option<FibEntry>, nhTable: bv32 -> Option<NhEntry>,
                    drop: bool, port: bv32)
    ensures Run(p, TablesOf(fibTable, nhTable), drop, port) == Expected(p, fibTable, nhTable, drop, port)
  {
    hide EthernetOf, Ipv4Of, Run, Lowered, Patched, Mac, MacOf, Mem48, TablesOf, IndexFor, NextHop;
    var t := TablesOf(fibTable, nhTable);
    HopPatches(p, t, drop, port);
    if |p| >= 34 {
      TypeBytes(p);
      HeaderFieldBytes(p);
      AboveOne(p[22]);
      FoundEntry(p, fibTable, nhTable);
      var value := nhTable(IndexFor(p, fibTable));
      PatchedIsLowered(p, MacAfter(p, t));
      KeptMac(p);
      if value.Some? && value.value.SetNhEntry? {
        MacRoundTripBytes(Mem48(value.value.dmac));
      }
    }
  }
}
