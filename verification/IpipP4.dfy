// The meaning of the ipip program at the level of its P4 headers: parser, control
// and deparser as functions on packets.

module IpipP4 {
  import opened Wrappers
  import opened Bytes
  import opened WireFormat
  import opened InternetHeader

  datatype Headers = Headers(ethernet: Option<Ethernet>, outer: Option<Ipv4>, inner: Option<Ipv4>)

  datatype Meta = Meta(src: bv32, dst: bv32, push: bool)

  /** What a lookup in fwd_table makes the control do. */
  datatype Action =
    | SetIpip(src: bv32, dst: bv32, port: bv32)
    | SetNh(dmac: bv48, port: bv32)
    | Drop
    | NoAction

  /** An accepted packet has its headers and the bytes they occupy; a packet too short for
      the next header is accepted with the headers before it. */
  datatype Parsed = Rejected | Accepted(hdr: Headers, consumed: nat)

  datatype Control = Control(hdr: Headers, meta: Meta, drop: bool, port: bv32)

  datatype Outcome = Dropped | Sent(bytes: seq<bv8>, port: bv32)

  const NoHeaders := Headers(None, None, None)

  function Parse(p: seq<bv8>): Parsed {
    if |p| < 14 then Accepted(NoHeaders, 0) else
    var ethernet := EthernetOf(p[..14]);
    if ethernet.etherType != 0x0800 then Rejected else
    if |p| < 34 then Accepted(Headers(Some(ethernet), None, None), 14) else
    var outer := Ipv4Of(p[14..34]);
    if outer.protocol != 4 || |p| < 54 then Accepted(Headers(Some(ethernet), Some(outer), None), 34)
    else Accepted(Headers(Some(ethernet), Some(outer), Some(Ipv4Of(p[34..54]))), 54)
  }

  function Redirected(hdr: Headers, dmac: bv48): Headers {
    if hdr.ethernet.Some? then hdr.(ethernet := Some(hdr.ethernet.value.(dstAddr := dmac))) else hdr
  }

  function Apply(hdr: Headers, action: Action, drop: bool, port: bv32): Control {
    match action
    case SetIpip(src, dst, to) => Control(hdr, Meta(src, dst, true), false, to)
    case SetNh(dmac, to) => Control(Redirected(hdr, dmac), Meta(0, 0, false), false, to)
    case Drop => Control(hdr, Meta(0, 0, false), true, port)
    case NoAction => Control(hdr, Meta(0, 0, false), drop, port)
  }

  /** The lookup, then the outer header taken off when there is an inner one. */
  function Main(hdr: Headers, action: Action, drop: bool, port: bv32): Control {
    if hdr.outer.None? then Control(hdr, Meta(0, 0, false), drop, port) else
    var c := Apply(hdr, action, drop, port);
    if hdr.inner.Some? then c.(hdr := c.hdr.(outer := None)) else c
  }

  /** ipip_push followed by ip_checksum on the outer header */
  function PushedOuter(h: Ipv4, meta: Meta): Ipv4 {
    WithChecksum(h.(srcAddr := meta.src, dstAddr := meta.dst, ttl := 64, protocol := 4, totalLen := h.totalLen + 20))
  }

  function Push(hdr: Headers, meta: Meta): Headers {
    if meta.push && hdr.outer.Some? then
      hdr.(outer := Some(PushedOuter(hdr.outer.value, meta)), inner := Some(TtlDecremented(hdr.outer.value)))
    else hdr
  }

  function EmitIpv4Option(h: Option<Ipv4>): seq<bv8> {
    if h.Some? then Ipv4Bytes(h.value) else []
  }

  /** The valid headers in order. */
  function Emit(hdr: Headers): seq<bv8> {
    (if hdr.ethernet.Some? then EthernetBytes(hdr.ethernet.value) else []) +
    EmitIpv4Option(hdr.outer) + EmitIpv4Option(hdr.inner)
  }

  function Width(hdr: Headers): nat {
    (if hdr.ethernet.Some? then 14 else 0) + (if hdr.outer.Some? then 20 else 0) + (if hdr.inner.Some? then 20 else 0)
  }

  /** The whole program on a packet, with the drop flag and port it starts from. */
  function Run(p: seq<bv8>, action: Action, drop: bool, port: bv32): Outcome {
    match Parse(p)
    case Rejected => Dropped
    case Accepted(hdr, n) =>
      ParsedFits(p);
      var c := Main(hdr, action, drop, port);
      if c.drop then Dropped else Sent(Emit(Push(c.hdr, c.meta)) + p[n..], c.port)
  }

  // ---- cursor and validity ----

  /** On every path that continues, the cursor is the summed width of the valid headers,
      it fits the packet, and headers are valid only from the front. */
  lemma ParsedFits(p: seq<bv8>)
    ensures Parse(p).Rejected? ==> |p| >= 14
    ensures Parse(p).Accepted? ==> Parse(p).consumed == Width(Parse(p).hdr) <= |p|
    ensures Parse(p).Accepted? ==> var h := Parse(p).hdr;
      (h.inner.Some? ==> h.outer.Some?) && (h.outer.Some? ==> h.ethernet.Some?)
  {
    hide EthernetOf, Ipv4Of;
  }

  lemma EmitWidth(hdr: Headers)
    ensures |Emit(hdr)| == Width(hdr)
  {
    hide EthernetBytes, Ipv4Bytes;
  }

  /** The room the deparser needs: none, one header more, or one header less, and a header
      less exactly when a tunnel header is taken off. */
  lemma ResizeIsOneHeader(p: seq<bv8>, action: Action, drop: bool, port: bv32)
    requires Parse(p).Accepted?
    ensures var hdr := Parse(p).hdr; var c := Main(hdr, action, drop, port);
      |Emit(Push(c.hdr, c.meta))| - Parse(p).consumed ==
      if hdr.inner.Some? then -20 else if hdr.outer.Some? && action.SetIpip? then 20 else 0
  {
    hide Emit, Parse, Main, Push;
    ParsedFits(p);
    var hdr := Parse(p).hdr;
    var c := Main(hdr, action, drop, port);
    EmitWidth(Push(c.hdr, c.meta));
    WidthAfter(hdr, action, drop, port);
  }

  lemma WidthAfter(hdr: Headers, action: Action, drop: bool, port: bv32)
    requires hdr.inner.Some? ==> hdr.outer.Some?
    ensures var c := Main(hdr, action, drop, port);
      Width(Push(c.hdr, c.meta)) - Width(hdr) ==
      if hdr.inner.Some? then -20 else if hdr.outer.Some? && action.SetIpip? then 20 else 0
  {
    hide Main, Push;
    var c := Main(hdr, action, drop, port);
    ValidAfterMain(hdr, action, drop, port);
    ValidAfterPush(c.hdr, c.meta);
  }

  lemma ValidAfterMain(hdr: Headers, action: Action, drop: bool, port: bv32)
    ensures var c := Main(hdr, action, drop, port);
      (c.hdr.ethernet.Some? <==> hdr.ethernet.Some?) && c.hdr.inner == hdr.inner &&
      (c.hdr.outer.Some? <==> hdr.outer.Some? && hdr.inner.None?) &&
      (c.meta.push <==> hdr.outer.Some? && action.SetIpip?)
  {
  }

  lemma ValidAfterPush(hdr: Headers, meta: Meta)
    ensures var out := Push(hdr, meta);
      out.ethernet == hdr.ethernet && (out.outer.Some? <==> hdr.outer.Some?) &&
      (out.inner.Some? <==> hdr.inner.Some? || (meta.push && hdr.outer.Some?))
  {
    hide PushedOuter, TtlDecremented;
  }
}
