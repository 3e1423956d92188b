// The generated C of the calculator: a parser that looks ahead three times, the table of
// operations, and emit, on a packet buffer that is changed in place.

module Calc {
  import opened Wrappers
  import opened Bytes
  import opened WireFormat
  import opened WordArithmetic
  import opened HeaderStructs
  import opened CalcP4
  import opened TrafficControl

  datatype P4calcT = P4calcT(
    p: bv8, four: bv8, ver: bv8, op: bv8, operandA: bv32, operandB: bv32, res: bv32, valid: bool)

  const NoP4calc := P4calcT(0, 0, 0, 0, 0, 0, 0, false)

  function P4calcView(h: P4calcT): P4calc {
    P4calc(h.p, h.four, h.ver, h.op, h.operandA, h.operandB, h.res)
  }

  class HdrMd {
    var ethernet: EthernetT
    var p4calc: P4calcT
    var packetOffsetInBits: nat

    constructor ()
    {
      ethernet, p4calc, packetOffsetInBits := NoEthernet, NoP4calc, 0;
    }

    method Clear()
      modifies this
      ensures ethernet == NoEthernet && p4calc == NoP4calc && packetOffsetInBits == 0
    {
      ethernet, p4calc, packetOffsetInBits := NoEthernet, NoP4calc, 0;
    }

    ghost function View(): Headers
      reads this
    {
      Headers(if ethernet.valid then Some(EthernetView(ethernet)) else None,
              if p4calc.valid then Some(P4calcView(p4calc)) else None)
    }
  }

  // ---- the parser ----

  lemma WordIsRow(b: seq<bv8>, k: nat)
    requires 4 * k + 4 <= |b|
    ensures WordAt(b, 4 * k) == RowOf(b, k)
  {
    hide Swab32, Le32, Be32;
    SwabWord(b[4 * k], b[4 * k + 1], b[4 * k + 2], b[4 * k + 3]);
  }

  method ExtractP4calc(pkt: array<bv8>, offset0: nat) returns (h: P4calcT, offset: nat)
    requires offset0 % 8 == 0 && offset0 / 8 + 16 <= pkt.Length
    ensures offset == offset0 + 128
    ensures h.valid && P4calcView(h) == P4calcOf(pkt[offset0 / 8..offset0 / 8 + 16])
  {
    hide LoadWord, WordAt, RowOf;
    ghost var at := offset0 / 8;
    ghost var b := pkt[at..at + 16];
    offset := offset0;
    var p := LoadByte(pkt, offset / 8);
    offset := offset + 8;
    var four := LoadByte(pkt, offset / 8);
    offset := offset + 8;
    var ver := LoadByte(pkt, offset / 8);
    offset := offset + 8;
    var op := LoadByte(pkt, offset / 8);
    offset := offset + 8;
    var operandA := LoadWord(pkt, offset / 8);
    offset := offset + 32;
    var operandB := LoadWord(pkt, offset / 8);
    offset := offset + 32;
    var res := LoadWord(pkt, offset / 8);
    offset := offset + 32;
    h := P4calcT(p, four, ver, op, operandA, operandB, res, true);
    LoadWordOfSlice(pkt, at, 16, 4);
    LoadWordOfSlice(pkt, at, 16, 8);
    LoadWordOfSlice(pkt, at, 16, 12);
    WordIsRow(b, 1);
    WordIsRow(b, 2);
    WordIsRow(b, 3);
  }

  /** lookahead: reads the header but puts the cursor back where it was, found or not. */
  method Lookahead(pkt: array<bv8>, hdrStart0: nat, offset0: nat)
    returns (tmp: P4calcT, hdrStart: nat, offset: nat, error: int)
    requires offset0 == 8 * hdrStart0
    ensures hdrStart == hdrStart0 && offset == offset0
    ensures error == if pkt.Length < hdrStart0 + 16 then PACKET_TOO_SHORT else 0
    ensures error == 0 ==> P4calcView(tmp) == P4calcOf(pkt[hdrStart0..hdrStart0 + 16])
  {
    hide P4calcView, P4calcOf;
    tmp, hdrStart, offset, error := NoP4calc, hdrStart0, offset0, 0;
    var hdrStartSave, offsetSave := hdrStart, offset;
    if pkt.Length < hdrStart + 16 {
      error := PACKET_TOO_SHORT;
      return;
    }
    tmp, offset := ExtractP4calc(pkt, offset);
    hdrStart := hdrStart + 16;
    hdrStart, offset := hdrStartSave, offsetSave;
  }

  /** The concatenation the parser selects on, in 24 bits. */
  function Signature(p: bv8, four: bv8, ver: bv8): bv32 {
    ((((((p as bv16) << 8) | ((four as bv16) & 0xFF)) as bv32) << 8) & 0xFFFFFF) | (((ver as bv32) & 0xFF) & 0xFFFFFF)
  }

  /** The one value it tests for is reached by the three marks and nothing else. */
  lemma SignatureIsMark(p: bv8, four: bv8, ver: bv8)
    ensures Signature(p, four, ver) == 0x503401 <==> p == 0x50 && four == 0x34 && ver == 0x01
  {
  }

  datatype State = Start | CheckP4calc | ParseP4calc | Reject | Accept

  function Rank(s: State): nat {
    match s
    case Start => 4
    case CheckP4calc => 3
    case ParseP4calc => 2
    case Reject => 1
    case Accept => 0
  }

  /** The Ethernet header has been read and names the calculator. */
  ghost predicate EthernetParsed(b: seq<bv8>, hdr: Headers, at: nat) {
    at == 14 <= |b| && EthernetOf(b[..14]).etherType == 0x1234 && hdr == Headers(Some(EthernetOf(b[..14])), None)
  }

  ghost predicate Reached(b: seq<bv8>, s: State, hdr: Headers, at: nat, error: int) {
    match s
    case Start => at == 0 && hdr == Headers(None, None) && error == 0
    case CheckP4calc => EthernetParsed(b, hdr, at) && error == 0
    case ParseP4calc => EthernetParsed(b, hdr, at) && error == 0 && |b| >= 30 && Marked(P4calcOf(b[14..30]))
    case Reject => error != 0 && Parse(b) == Accepted(hdr, at)
    case Accept => Parse(b) == Accepted(hdr, at)
  }

  method StartState(pkt: array<bv8>, md: HdrMd) returns (next: State, at: nat, offset: nat, error: int)
    requires md.View() == Headers(None, None)
    modifies md`ethernet
    ensures Rank(next) < Rank(Start)
    ensures offset == 8 * at
    ensures Reached(pkt[..], next, md.View(), at, error)
  {
    hide EthernetOf, P4calcOf, EthernetView, P4calcView;
    if pkt.Length < 14 {
      return Reject, 0, 0, PACKET_TOO_SHORT;
    }
    md.ethernet, offset := ExtractEthernet(pkt, 0);
    TypeOfView(md.ethernet);
    return if md.ethernet.etherType == 0x1234 then CheckP4calc else Accept, 14, offset, 0;
  }

  /** check_p4calc: three lookaheads, one mark from each */
  method CheckP4calcState(pkt: array<bv8>, md: HdrMd, hdrStart0: nat, offset0: nat)
    returns (next: State, at: nat, offset: nat, error: int)
    requires offset0 == 8 * hdrStart0
    requires Reached(pkt[..], CheckP4calc, md.View(), hdrStart0, 0)
    ensures Rank(next) < Rank(CheckP4calc)
    ensures offset == 8 * at
    ensures Reached(pkt[..], next, md.View(), at, error)
  {
    hide EthernetOf, EthernetView, RowOf, Signature;
    at, offset := hdrStart0, offset0;
    var tmp0, tmp2, tmp4;
    tmp0, at, offset, error := Lookahead(pkt, at, offset);
    if error != 0 {
      return Reject, at, offset, error;
    }
    tmp2, at, offset, error := Lookahead(pkt, at, offset);
    if error != 0 {
      return Reject, at, offset, error;
    }
    tmp4, at, offset, error := Lookahead(pkt, at, offset);
    if error != 0 {
      return Reject, at, offset, error;
    }
    SignatureIsMark(tmp0.p, tmp2.four, tmp4.ver);
    next := if Signature(tmp0.p, tmp2.four, tmp4.ver) == 0x503401 then ParseP4calc else Accept;
  }

  method ParseP4calcState(pkt: array<bv8>, md: HdrMd, hdrStart: nat, offset0: nat)
    returns (next: State, at: nat, offset: nat, error: int)
    requires offset0 == 8 * hdrStart
    requires Reached(pkt[..], ParseP4calc, md.View(), hdrStart, 0)
    modifies md`p4calc
    ensures Rank(next) < Rank(ParseP4calc)
    ensures offset == 8 * at
    ensures Reached(pkt[..], next, md.View(), at, error)
  {
    hide EthernetOf, P4calcOf, EthernetView, P4calcView;
    if pkt.Length < hdrStart + 16 {
      return Reject, hdrStart, offset0, PACKET_TOO_SHORT;
    }
    md.p4calc, offset := ExtractP4calc(pkt, offset0);
    return Accept, hdrStart + 16, offset, 0;
  }

  method RunParser(skb: Skb, md: HdrMd, g: GlobalMetadata) returns (ret: int)
    modifies md, g`parserError
    ensures ret == PASS
    ensures md.packetOffsetInBits % 8 == 0
    ensures Parse(skb.data[..]) == Accepted(md.View(), md.packetOffsetInBits / 8)
  {
    hide EthernetView, P4calcView, Parse, Reached;
    var pkt := skb.data;
    var error, hdrStart: nat, offset: nat := 0, 0, 0;
    var state := Start;
    md.Clear();
    NothingParsed(pkt[..]);
    while state != Accept
      invariant offset == 8 * hdrStart
      invariant state.Start? ==> md.View() == Headers(None, None)
      invariant Reached(pkt[..], state, md.View(), hdrStart, error)
      decreases Rank(state)
    {
      StateFacts(pkt[..], state, md.View(), hdrStart, error);
      match state {
        case Start =>
          state, hdrStart, offset, error := StartState(pkt, md);
        case CheckP4calc =>
          state, hdrStart, offset, error := CheckP4calcState(pkt, md, hdrStart, offset);
        case ParseP4calc =>
          state, hdrStart, offset, error := ParseP4calcState(pkt, md, hdrStart, offset);
        case Reject =>
          if error == 0 {
            return SHOT;
          }
          g.parserError := error;
          state := Accept;
      }
    }
    StateFacts(pkt[..], state, md.View(), hdrStart, error);
    md.packetOffsetInBits := offset;
    return PASS;
  }

  lemma StateFacts(b: seq<bv8>, s: State, hdr: Headers, at: nat, error: int)
    requires Reached(b, s, hdr, at, error)
    ensures match s
      case Reject => error != 0 && Reached(b, Accept, hdr, at, error)
      case Accept => Parse(b) == Accepted(hdr, at)
      case _ => error == 0
  {
  }

  lemma NothingParsed(b: seq<bv8>)
    ensures Reached(b, Start, Headers(None, None), 0, 0)
  {
  }

  // ---- the control ----

  /** What a lookup result means; no result runs no action. */
  function ActionOf(value: Option<Action>): Action {
    match value
    case Some(action) => action
    case None => NoAction
  }

  /** One of the five operations: the result, then the addresses swapped through a byte-swapped
      temporary, then out of the port the packet came in on. */
  method SendBackTo(skb: Skb, md: HdrMd, g: GlobalMetadata, result: bv32)
    modifies md`ethernet, md`p4calc, g`drop, g`egressPort
    ensures md.ethernet == old(md.ethernet).(dstAddr := old(md.ethernet.srcAddr), srcAddr := old(md.ethernet.dstAddr))
    ensures md.p4calc == old(md.p4calc).(res := result)
    ensures !g.drop && g.egressPort == skb.ifindex
  {
    hide Swab64;
    md.p4calc := md.p4calc.(res := result);
    var tmp5 := Swab64(md.ethernet.dstAddr);
    md.ethernet := md.ethernet.(dstAddr := md.ethernet.srcAddr);
    SwabTwice64(old(md.ethernet.dstAddr));
    md.ethernet := md.ethernet.(srcAddr := Swab64(tmp5));
    g.drop := false;
    g.egressPort := skb.ifindex;
  }

  lemma SwappedView(e: EthernetT)
    ensures var v := EthernetView(e);
      EthernetView(e.(dstAddr := e.srcAddr, srcAddr := e.dstAddr)) == v.(dstAddr := v.srcAddr, srcAddr := v.dstAddr)
  {
    hide MacOf, Mem48;
  }

  /** What SendBackTo does to the structs is what send_back does to the headers. */
  lemma SentBackView(e: EthernetT, h: P4calcT, result: bv32)
    requires e.valid && h.valid
    ensures var swapped := e.(dstAddr := e.srcAddr, srcAddr := e.dstAddr);
      Headers(Some(EthernetView(swapped)), Some(P4calcView(h.(res := result)))) ==
      SendBack(Headers(Some(EthernetView(e)), Some(P4calcView(h))), result)
  {
    hide EthernetView;
    SwappedView(e);
  }

  method Operation(skb: Skb, md: HdrMd, g: GlobalMetadata, result: bv32)
    requires md.ethernet.valid && md.p4calc.valid
    modifies md`ethernet, md`p4calc, g`drop, g`egressPort
    ensures md.ethernet.valid && md.p4calc.valid
    ensures md.View() == SendBack(old(md.View()), result)
    ensures !g.drop && g.egressPort == skb.ifindex
  {
    hide EthernetView, P4calcView, SendBack;
    SentBackView(md.ethernet, md.p4calc, result);
    SendBackTo(skb, md, g, result);
  }

  lemma OperandsOfView(h: P4calcT)
    ensures P4calcView(h).operandA == h.operandA && P4calcView(h).operandB == h.operandB && P4calcView(h).op == h.op
  {
  }

  method ApplyEntry(skb: Skb, md: HdrMd, g: GlobalMetadata, value: Option<Action>)
    requires md.ethernet.valid && md.p4calc.valid
    modifies md`ethernet, md`p4calc, g`drop, g`egressPort
    ensures md.ethernet.valid && md.p4calc.valid
    ensures Control(md.View(), g.drop, g.egressPort) ==
            Apply(old(md.View()), ActionOf(value), skb.ifindex, old(g.drop), old(g.egressPort))
  {
    hide EthernetView, P4calcView, SendBack, Plus, Minus, BitAnd, BitOr, BitXor;
    OperandsOfView(md.p4calc);
    var a, b := md.p4calc.operandA, md.p4calc.operandB;
    match value {
      case Some(Add) =>
        Operation(skb, md, g, Plus(a, b));
      case Some(Sub) =>
        Operation(skb, md, g, Minus(a, b));
      case Some(And) =>
        Operation(skb, md, g, BitAnd(a, b));
      case Some(Or) =>
        Operation(skb, md, g, BitOr(a, b));
      case Some(Xor) =>
        Operation(skb, md, g, BitXor(a, b));
      case Some(Drop) =>
        g.drop := true;
      case Some(NoAction) =>
      case None =>
    }
  }

  method MainControl(skb: Skb, md: HdrMd, g: GlobalMetadata, calculate: bv8 -> Option<Action>)
    requires md.p4calc.valid ==> md.ethernet.valid
    modifies md`ethernet, md`p4calc, g`drop, g`egressPort
    ensures md.ethernet.valid == old(md.ethernet.valid) && md.p4calc.valid == old(md.p4calc.valid)
    ensures Control(md.View(), g.drop, g.egressPort) ==
            Main(old(md.View()), op => ActionOf(calculate(op)), skb.ifindex, old(g.drop), old(g.egressPort))
  {
    hide EthernetView, Apply, ActionOf;
    if md.p4calc.valid {
      ApplyEntry(skb, md, g, calculate(md.p4calc.op));
    } else {
      g.drop := true;
    }
  }

  // ---- the deparser ----

  method EmitWord(pkt: array<bv8>, at: nat, x: bv32)
    requires at + 4 <= pkt.Length
    modifies pkt
    ensures pkt[..] == Splice(old(pkt[..]), at, Row(x))
  {
    hide Swab32, Row, Mem32;
    WriteField(pkt, at, Mem32(Swab32(x)));
    MemOfSwab32(x);
  }

  method EmitMarks(pkt: array<bv8>, offset0: nat, h: P4calcT) returns (offset: nat)
    requires offset0 % 8 == 0 && offset0 / 8 + 16 <= pkt.Length
    modifies pkt
    ensures offset == offset0 + 32
    ensures pkt[..] == Splice(old(pkt[..]), offset0 / 8, [h.p] + [h.four] + [h.ver] + [h.op])
  {
    hide Splice;
    ghost var s, at := pkt[..], offset0 / 8;
    ghost var done: seq<bv8> := [h.p];
    offset := offset0;
    WriteField(pkt, offset / 8, [h.p]);
    offset := offset + 8;
    WriteField(pkt, offset / 8, [h.four]);
    done := Extend(s, at, done, [h.four], pkt[..]);
    offset := offset + 8;
    WriteField(pkt, offset / 8, [h.ver]);
    done := Extend(s, at, done, [h.ver], pkt[..]);
    offset := offset + 8;
    WriteField(pkt, offset / 8, [h.op]);
    done := Extend(s, at, done, [h.op], pkt[..]);
    offset := offset + 8;
  }

  method EmitP4calc(pkt: array<bv8>, offset0: nat, h: P4calcT) returns (offset: nat)
    requires offset0 % 8 == 0 && offset0 / 8 + 16 <= pkt.Length
    modifies pkt
    ensures offset == offset0 + 128
    ensures pkt[..] == Splice(old(pkt[..]), offset0 / 8, P4calcBytes(P4calcView(h)))
  {
    hide Row, Splice;
    ghost var s, at := pkt[..], offset0 / 8;
    ghost var done: seq<bv8> := [h.p] + [h.four] + [h.ver] + [h.op];
    offset := EmitMarks(pkt, offset0, h);
    EmitWord(pkt, offset / 8, h.operandA);
    done := Extend(s, at, done, Row(h.operandA), pkt[..]);
    offset := offset + 32;
    EmitWord(pkt, offset / 8, h.operandB);
    done := Extend(s, at, done, Row(h.operandB), pkt[..]);
    offset := offset + 32;
    EmitWord(pkt, offset / 8, h.res);
    done := Extend(s, at, done, Row(h.res), pkt[..]);
    offset := offset + 32;
  }

  method EmitHeaders(skb: Skb, md: HdrMd) returns (ret: int)
    requires md.p4calc.valid ==> md.ethernet.valid
    requires Width(md.View()) <= skb.data.Length
    modifies skb.data
    ensures ret == PASS
    ensures skb.data[..] == Emit(md.View()) + old(skb.data[..])[Width(md.View())..]
  {
    hide EthernetView, P4calcView, EthernetBytes, P4calcBytes;
    var pkt, offset: nat := skb.data, 0;
    ghost var s := pkt[..];
    ghost var done: seq<bv8> := [];
    if md.ethernet.valid {
      if pkt.Length < 14 {
        return SHOT;
      }
      EmitEthernet(pkt, md.ethernet);
      offset := offset + 112;
      done := EthernetBytes(EthernetView(md.ethernet));
    }
    if md.p4calc.valid {
      if pkt.Length < offset / 8 + 16 {
        return SHOT;
      }
      offset := EmitP4calc(pkt, offset, md.p4calc);
      done := Extend(s, 0, done, P4calcBytes(P4calcView(md.p4calc)), pkt[..]);
    }
    assert done == Emit(md.View());
    return PASS;
  }

  method Process(skb: Skb, md: HdrMd, g: GlobalMetadata, calculate: bv8 -> Option<Action>) returns (ret: int)
    requires Parse(skb.data[..]) == Accepted(md.View(), md.packetOffsetInBits / 8)
    modifies md, g, skb.data
    ensures match Run(old(skb.data[..]), op => ActionOf(calculate(op)), skb.ifindex, old(g.drop), old(g.egressPort))
      case Dropped => ret == SHOT
      case Sent(bytes, port) => ret == PASS && g.egressPort == port && skb.data[..] == bytes
  {
    hide EthernetView, P4calcView, Parse, Emit, Apply, ActionOf;
    ghost var p := skb.data[..];
    ParsedFits(p);
    var n := md.packetOffsetInBits / 8;
    MainControl(skb, md, g, calculate);
    if g.drop {
      return SHOT;
    }
    var outHeaderLength := (if md.ethernet.valid then 112 else 0) + (if md.p4calc.valid then 128 else 0);
    var outHeaderOffset := outHeaderLength / 8 - n;
    if outHeaderOffset != 0 {
      assert false;  // the resize branch is dead
    }
    ret := EmitHeaders(skb, md);
  }

  /** One calculator: its verdict and the bytes it leaves are those of the P4 program. */
  method Node(skb: Skb, md: HdrMd, g: GlobalMetadata, calculate: bv8 -> Option<Action>) returns (verdict: Verdict)
    modifies md, g, skb.data
    ensures match Run(old(skb.data[..]), op => ActionOf(calculate(op)), skb.ifindex, old(g.drop), old(g.egressPort))
      case Dropped => verdict == Shot
      case Sent(bytes, port) =>
        (if port == 0 then verdict == ToHost else verdict == Redirect(port)) && skb.data[..] == bytes
  {
    hide EthernetView, P4calcView, Parse, Run, ActionOf;
    var ret := RunParser(skb, md, g);
    if ret != PASS {
      return Shot;
    }
    ret := Process(skb, md, g, calculate);
    if ret != PASS {
      return Shot;
    }
    return Deliver(g.egressPort);
  }
}
