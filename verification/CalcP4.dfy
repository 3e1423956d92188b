// The meaning of the calculator program at the level of its P4 headers.

module CalcP4 {
  import opened Wrappers
  import opened Bytes
  import opened WireFormat
  import opened WordArithmetic

  datatype P4calc = P4calc(p: bv8, four: bv8, ver: bv8, op: bv8, operandA: bv32, operandB: bv32, res: bv32)

  datatype Headers = Headers(ethernet: Option<Ethernet>, p4calc: Option<P4calc>)

  /** Every packet is accepted; only a packet with the calculator's marks gets its header. */
  datatype Parsed = Accepted(hdr: Headers, consumed: nat)

  datatype Action = Add | Sub | And | Or | Xor | Drop | NoAction

  datatype Control = Control(hdr: Headers, drop: bool, port: bv32)

  datatype Outcome = Dropped | Sent(bytes: seq<bv8>, port: bv32)

  function P4calcBytes(h: P4calc): (r: seq<bv8>)
    ensures |r| == 16
  {
    [h.p] + [h.four] + [h.ver] + [h.op] + Row(h.operandA) + Row(h.operandB) + Row(h.res)
  }

  function P4calcOf(b: seq<bv8>): P4calc
    requires |b| == 16
  {
    P4calc(b[0], b[1], b[2], b[3], RowOf(b, 1), RowOf(b, 2), RowOf(b, 3))
  }

  lemma P4calcRoundTrip(h: P4calc)
    ensures P4calcOf(P4calcBytes(h)) == h
  {
    hide Row, RowOf;
    var b := P4calcBytes(h);
    assert b[4..8] == Row(h.operandA) && b[8..12] == Row(h.operandB) && b[12..16] == Row(h.res);
    RowAt(b, 1, h.operandA);
    RowAt(b, 2, h.operandB);
    RowAt(b, 3, h.res);
  }

  lemma P4calcRoundTripBytes(b: seq<bv8>)
    requires |b| == 16
    ensures P4calcBytes(P4calcOf(b)) == b
  {
    hide Row, RowOf;
    RowBytes(b, 1);
    RowBytes(b, 2);
    RowBytes(b, 3);
    assert b == [b[0]] + [b[1]] + [b[2]] + [b[3]] + b[4..8] + b[8..12] + b[12..16];
  }

  /** 'P', '4' and version 0.1 */
  predicate Marked(h: P4calc) {
    h.p == 0x50 && h.four == 0x34 && h.ver == 0x01
  }

  function Parse(p: seq<bv8>): Parsed {
    if |p| < 14 then Accepted(Headers(None, None), 0) else
    var ethernet := Some(EthernetOf(p[..14]));
    if ethernet.value.etherType != 0x1234 || |p| < 30 || !Marked(P4calcOf(p[14..30]))
    then Accepted(Headers(ethernet, None), 14)
    else Accepted(Headers(ethernet, Some(P4calcOf(p[14..30]))), 30)
  }

  function BitAnd(a: bv32, b: bv32): bv32 {
    a & b
  }

  function BitOr(a: bv32, b: bv32): bv32 {
    a | b
  }

  function BitXor(a: bv32, b: bv32): bv32 {
    a ^ b
  }

  function Compute(action: Action, a: bv32, b: bv32): bv32
    requires !action.Drop? && !action.NoAction?
  {
    match action
    case Add => Plus(a, b)
    case Sub => Minus(a, b)
    case And => BitAnd(a, b)
    case Or => BitOr(a, b)
    case Xor => BitXor(a, b)
  }

  function SendBack(hdr: Headers, result: bv32): Headers
    requires hdr.ethernet.Some? && hdr.p4calc.Some?
  {
    var e := hdr.ethernet.value;
    Headers(Some(e.(dstAddr := e.srcAddr, srcAddr := e.dstAddr)), Some(hdr.p4calc.value.(res := result)))
  }

  function Apply(hdr: Headers, action: Action, ifindex: bv32, drop: bool, port: bv32): Control
    requires hdr.ethernet.Some? && hdr.p4calc.Some?
  {
    match action
    case NoAction => Control(hdr, drop, port)
    case Drop => Control(hdr, true, port)
    case _ =>
      var result := Compute(action, hdr.p4calc.value.operandA, hdr.p4calc.value.operandB);
      Control(SendBack(hdr, result), false, ifindex)
  }

  function Main(hdr: Headers, table: bv8 -> Action, ifindex: bv32, drop: bool, port: bv32): Control
    requires hdr.p4calc.Some? ==> hdr.ethernet.Some?
  {
    if hdr.p4calc.Some? then Apply(hdr, table(hdr.p4calc.value.op), ifindex, drop, port) else Control(hdr, true, port)
  }

  function Emit(hdr: Headers): seq<bv8> {
    (if hdr.ethernet.Some? then EthernetBytes(hdr.ethernet.value) else []) +
    (if hdr.p4calc.Some? then P4calcBytes(hdr.p4calc.value) else [])
  }

  function Width(hdr: Headers): nat {
    (if hdr.ethernet.Some? then 14 else 0) + (if hdr.p4calc.Some? then 16 else 0)
  }

  function Run(p: seq<bv8>, table: bv8 -> Action, ifindex: bv32, drop: bool, port: bv32): Outcome {
    var Accepted(hdr, n) := Parse(p);
    ParsedFits(p);
    var c := Main(hdr, table, ifindex, drop, port);
    if c.drop then Dropped else Sent(Emit(c.hdr) + p[n..], c.port)
  }

  /** On every path, failed lookaheads included, the cursor is the summed width of the valid
      headers and fits the packet. */
  lemma ParsedFits(p: seq<bv8>)
    ensures Parse(p).consumed == Width(Parse(p).hdr) <= |p|
    ensures Parse(p).hdr.p4calc.Some? ==> Parse(p).hdr.ethernet.Some?
  {
    hide EthernetOf, P4calcOf;
  }

  /** The deparser never needs to resize. */
  lemma NoResize(p: seq<bv8>, table: bv8 -> Action, ifindex: bv32, drop: bool, port: bv32)
    ensures Parse(p).hdr.p4calc.Some? ==> Parse(p).hdr.ethernet.Some?
    ensures |Emit(Main(Parse(p).hdr, table, ifindex, drop, port).hdr)| == Parse(p).consumed
  {
    hide EthernetBytes, P4calcBytes, Parse, Compute;
    ParsedFits(p);
  }
}
