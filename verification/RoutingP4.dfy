// The meaning of the routing program at the level of its P4 headers.

module RoutingP4 {
  import opened Wrappers
  import opened Bytes
  import opened WireFormat
  import opened InternetHeader

  datatype Headers = Headers(ethernet: Option<Ethernet>, ip: Option<Ipv4>)

  datatype Parsed = Rejected | Accepted(hdr: Headers, consumed: nat)

  datatype FibAction = SetNhid(index: bv32) | FibNoAction

  datatype NhAction = SetNh(dmac: bv48, port: bv32) | NhDrop | NhNoAction

  /** The tables of one node; the prefix match of fib_table is the kernel's. */
  datatype Tables = Tables(fib: bv32 -> FibAction, nh: bv32 -> NhAction)

  datatype Control = Control(hdr: Headers, drop: bool, port: bv32)

  datatype Outcome = Dropped | Sent(bytes: seq<bv8>, port: bv32)

  const NoHeaders := Headers(None, None)

  function Parse(p: seq<bv8>): Parsed {
    if |p| < 14 then Accepted(NoHeaders, 0) else
    var ethernet := EthernetOf(p[..14]);
    if ethernet.etherType != 0x0800 then Rejected else
    if |p| < 34 then Accepted(Headers(Some(ethernet), None), 14)
    else Accepted(Headers(Some(ethernet), Some(Ipv4Of(p[14..34]))), 34)
  }

  /** The next-hop index: 0, the default route, unless the FIB sets one. */
  function NextHopIndex(dst: bv32, t: Tables): bv32 {
    match t.fib(dst)
    case SetNhid(index) => index
    case FibNoAction => 0
  }

  function NextHop(dst: bv32, t: Tables): NhAction {
    t.nh(NextHopIndex(dst, t))
  }

  function Apply(hdr: Headers, action: NhAction, drop: bool, port: bv32): Control {
    match action
    case SetNh(dmac, to) => Control(Redirected(hdr, dmac), false, to)
    case NhDrop => Control(hdr, true, port)
    case NhNoAction => Control(hdr, drop, port)
  }

  function Main(hdr: Headers, t: Tables, drop: bool, port: bv32): Control {
    if hdr.ip.None? || hdr.ip.value.ttl <= 1 then Control(hdr, true, port)
    else Apply(hdr, NextHop(hdr.ip.value.dstAddr, t), drop, port)
  }

  function Redirected(hdr: Headers, dmac: bv48): Headers {
    if hdr.ethernet.Some? then hdr.(ethernet := Some(hdr.ethernet.value.(dstAddr := dmac))) else hdr
  }

  function Decremented(hdr: Headers): Headers {
    if hdr.ip.Some? then hdr.(ip := Some(TtlDecremented(hdr.ip.value))) else hdr
  }

  function Emit(hdr: Headers): seq<bv8> {
    (if hdr.ethernet.Some? then EthernetBytes(hdr.ethernet.value) else []) +
    (if hdr.ip.Some? then Ipv4Bytes(hdr.ip.value) else [])
  }

  function Width(hdr: Headers): nat {
    (if hdr.ethernet.Some? then 14 else 0) + (if hdr.ip.Some? then 20 else 0)
  }

  function Run(p: seq<bv8>, t: Tables, drop: bool, port: bv32): Outcome {
    match Parse(p)
    case Rejected => Dropped
    case Accepted(hdr, n) =>
      ParsedFits(p);
      var c := Main(hdr, t, drop, port);
      if c.drop then Dropped else Sent(Emit(Decremented(c.hdr)) + p[n..], c.port)
  }

  /** The cursor is the summed width of the valid headers and fits the packet. */
  lemma ParsedFits(p: seq<bv8>)
    ensures Parse(p).Accepted? ==> Parse(p).consumed == Width(Parse(p).hdr) <= |p|
    ensures Parse(p).Accepted? ==> (Parse(p).hdr.ip.Some? ==> Parse(p).hdr.ethernet.Some?)
  {
    hide EthernetOf, Ipv4Of;
  }

  /** The deparser never needs to resize. */
  lemma NoResize(p: seq<bv8>, t: Tables, drop: bool, port: bv32)
    requires Parse(p).Accepted?
    ensures |Emit(Decremented(Main(Parse(p).hdr, t, drop, port).hdr))| == Parse(p).consumed
  {
    hide EthernetBytes, Ipv4Bytes, Parse, TtlDecremented;
    ParsedFits(p);
  }
}
