// Packets through the generated C of several nodes: the runs that the theorems on the P4
// meaning speak about, taken by the code.

module NodeRuns {
  import opened Wrappers
  import opened Bytes
  import opened WireFormat
  import opened Ipv4Packets
  import opened WordArithmetic
  import opened TrafficControl
  import Ipip
  import IpipP4
  import IpipTheorems
  import IpipBytes
  import Routing
  import RoutingP4
  import RoutingTheorems
  import RoutingBytes
  import Calc
  import CalcP4
  import CalcClient
  import CalcTheorems
  import CalcBytes

  // ---- two tunnel nodes ----

  /** A packet that a set_ipip entry sends into the tunnel and a set_nh entry takes out of it at
      the next node. In between it has the addresses of the first entry in front; in the end it is
      what it was, one ttl lower, with the MAC of the second entry. It leaves either node by the
      port of the entry, and port 0 is the host's own stack. */
  method ThroughTunnel(p: seq<bv8>, firstIf: bv32, secondIf: bv32, drop: bool, drop': bool,
                       firstTable: bv32 -> Option<Ipip.Entry>, secondTable: bv32 -> Option<Ipip.Entry>,
                       fill: seq<bv8>, fill': seq<bv8>)
    returns (between: seq<bv8>, first: Verdict, out: seq<bv8>, second: Verdict)
    requires IpipTheorems.Plain(p) && |fill| == |fill'| == 20
    requires firstTable(firstIf).Some? && firstTable(firstIf).value.SetIpipEntry?
    requires secondTable(secondIf).Some? && secondTable(secondIf).value.SetNhEntry?
    ensures var entry, q := firstTable(firstIf).value, between;
      |q| == |p| + 20 && q[..14] == p[..14] && q[14..16] == p[14..16] &&
      Be16(q[16], q[17]) == Be16(p[16], p[17]) + 20 && q[18..22] == p[18..22] && q[22] == 64 && q[23] == 4 &&
      q[26..30] == Mem32(entry.src) && q[30..34] == Mem32(entry.dst) && q[34..] == Lowered(p)[14..]
    ensures var port := firstTable(firstIf).value.port; first == if port == 0 then ToHost else Redirect(port)
    ensures out == Mem48(secondTable(secondIf).value.dmac) + Lowered(p)[6..]
    ensures var port := secondTable(secondIf).value.port; second == if port == 0 then ToHost else Redirect(port)
  {
    hide IpipTheorems.Plain, IpipBytes.Expected, Lowered, Patched, MacOf, Mac, Mem48, Mem32, Row, Swab32, Be16;
    var entry, entry' := firstTable(firstIf).value, secondTable(secondIf).value;
    IpipTheorems.TunnelInverse(p, Swab32(entry.src), Swab32(entry.dst), entry.port, MacOf(Mem48(entry'.dmac)),
                               entry'.port, drop, 0, drop', 0);
    IpipBytes.PushedFields(p, Swab32(entry.src), Swab32(entry.dst), entry.port, drop, 0);
    MemOfSwab32(entry.src);
    MemOfSwab32(entry.dst);
    PatchedIsLowered(p, MacOf(Mem48(entry'.dmac)));
    MacRoundTripBytes(Mem48(entry'.dmac));
    IpipBytes.RunExpected(p, firstTable(firstIf), drop, 0);
    between, first := OneTunnelNode(p, firstIf, drop, firstTable, fill);
    IpipBytes.RunExpected(between, secondTable(secondIf), drop', 0);
    out, second := OneTunnelNode(between, secondIf, drop', secondTable, fill');
  }

  /** One node with its own scratch area, on a packet in a buffer of its own. */
  method OneTunnelNode(p: seq<bv8>, ifindex: bv32, drop: bool, table: bv32 -> Option<Ipip.Entry>, fill: seq<bv8>)
    returns (out: seq<bv8>, verdict: Verdict)
    requires |fill| == 20
    ensures match IpipBytes.Expected(p, table(ifindex), drop, 0)
      case Dropped => verdict == Shot
      case Sent(bytes, port) => (if port == 0 then verdict == ToHost else verdict == Redirect(port)) && out == bytes
  {
    hide IpipP4.Run, IpipBytes.Expected, Ipip.ActionOf;
    IpipBytes.RunExpected(p, table(ifindex), drop, 0);
    var pkt := Buffer(p);
    var skb := new Skb(pkt, ifindex);
    var md := new Ipip.HdrMd();
    var g := new GlobalMetadata(drop, 0);
    verdict := Ipip.Node(skb, md, g, table, fill, 0);
    out := skb.data[..];
  }

  // ---- a chain of routers ----

  datatype Router = Router(
    fibTable: bv32 -> Option<Routing.FibEntry>, nhTable: bv32 -> Option<Routing.NhEntry>, drop: bool, port: bv32)

  function HopOf(r: Router): RoutingTheorems.Hop {
    RoutingTheorems.Hop(Routing.TablesOf(r.fibTable, r.nhTable), r.drop, r.port)
  }

  function HopsOf(routers: seq<Router>): seq<RoutingTheorems.Hop> {
    if routers == [] then [] else [HopOf(routers[0])] + HopsOf(routers[1..])
  }

  lemma HopsFrom(routers: seq<Router>, i: nat)
    requires i < |routers|
    ensures HopsOf(routers[i..]) == [HopOf(routers[i])] + HopsOf(routers[i + 1..])
  {
    assert routers[i..][1..] == routers[i + 1..];
  }

  /** What happens to a packet at every router it reaches. */
  function Journey(p: seq<bv8>, routers: seq<Router>): seq<RoutingP4.Outcome>
    decreases |routers|
  {
    if routers == [] then [] else
    var r := routers[0];
    var next := RoutingBytes.Expected(p, r.fibTable, r.nhTable, r.drop, r.port);
    [next] + if next.Dropped? then [] else Journey(next.bytes, routers[1..])
  }

  /** What a router's verdict on a packet says. */
  ghost predicate Decided(verdict: Verdict, outcome: RoutingP4.Outcome) {
    match outcome
    case Dropped => verdict == Shot
    case Sent(_, port) => if port == 0 then verdict == ToHost else verdict == Redirect(port)
  }

  /** Every router has decided what is said. */
  ghost predicate AllDecided(verdicts: seq<Verdict>, outcomes: seq<RoutingP4.Outcome>) {
    |verdicts| == |outcomes| && forall k :: 0 <= k < |verdicts| ==> Decided(verdicts[k], outcomes[k])
  }

  lemma {:induction false} OneHopOn(done: seq<RoutingP4.Outcome>, p: seq<bv8>, routers: seq<Router>, i: nat,
                                    next: RoutingP4.Outcome, whole: seq<RoutingP4.Outcome>)
    requires i < |routers| && done + Journey(p, routers[i..]) == whole
    requires next == RoutingBytes.Expected(p, routers[i].fibTable, routers[i].nhTable, routers[i].drop, routers[i].port)
    ensures whole == done + [next] + if next.Dropped? then [] else Journey(next.bytes, routers[i + 1..])
  {
    hide RoutingBytes.Expected;
    assert routers[i..][1..] == routers[i + 1..];
  }

  /** One packet through a chain of routers, in one buffer: what is left of it in the end, and the
      verdict of every router it reached. */
  method ThroughRouters(p: seq<bv8>, routers: seq<Router>) returns (out: Option<seq<bv8>>, verdicts: seq<Verdict>)
    ensures out == RoutingTheorems.Travel(p, HopsOf(routers))
    ensures AllDecided(verdicts, Journey(p, routers))
  {
    hide RoutingP4.Run, HopOf, RoutingBytes.Expected, Decided, Journey;
    var pkt := Buffer(p);
    var md := new Routing.HdrMd();
    verdicts := [];
    ghost var done: seq<RoutingP4.Outcome> := [];
    assert routers[0..] == routers;
    for i := 0 to |routers|
      invariant fresh(pkt) && fresh(md)
      invariant RoutingTheorems.Travel(pkt[..], HopsOf(routers[i..])) == RoutingTheorems.Travel(p, HopsOf(routers))
      invariant done + Journey(pkt[..], routers[i..]) == Journey(p, routers)
      invariant AllDecided(verdicts, done)
    {
      HopsFrom(routers, i);
      ghost var before := pkt[..];
      TravelOne(pkt[..], HopOf(routers[i]), HopsOf(routers[i + 1..]));
      HopFields(routers[i]);
      var verdict;
      ghost var outcome;
      verdict, outcome := OneRouter(pkt, md, routers[i]);
      OneHopOn(done, before, routers, i, outcome, Journey(p, routers));
      verdicts, done := verdicts + [verdict], done + [outcome];
      if verdict.Shot? {
        return None, verdicts;
      }
    }
    assert routers[|routers|..] == [];
    NoRouters(pkt[..]);
    out := Some(pkt[..]);
  }

  /** One router on a packet in its buffer. */
  method OneRouter(pkt: array<bv8>, md: Routing.HdrMd, r: Router)
    returns (verdict: Verdict, ghost outcome: RoutingP4.Outcome)
    modifies pkt, md
    ensures outcome == RoutingBytes.Expected(old(pkt[..]), r.fibTable, r.nhTable, r.drop, r.port)
    ensures outcome == RoutingP4.Run(old(pkt[..]), Routing.TablesOf(r.fibTable, r.nhTable), r.drop, r.port)
    ensures Decided(verdict, outcome) && (verdict.Shot? <==> outcome.Dropped?)
    ensures outcome.Sent? ==> pkt[..] == outcome.bytes
  {
    hide RoutingP4.Run, RoutingBytes.Expected, Routing.TablesOf;
    outcome := RoutingBytes.Expected(pkt[..], r.fibTable, r.nhTable, r.drop, r.port);
    RoutingBytes.RunExpected(pkt[..], r.fibTable, r.nhTable, r.drop, r.port);
    var skb := new Skb(pkt, 0);
    var g := new GlobalMetadata(r.drop, r.port);
    verdict := Routing.Node(skb, md, g, r.fibTable, r.nhTable);
  }

  lemma NoRouters(p: seq<bv8>)
    ensures Journey(p, []) == []
  {
  }

  lemma HopFields(r: Router)
    ensures var h := HopOf(r);
      h.tables == Routing.TablesOf(r.fibTable, r.nhTable) && h.drop == r.drop && h.port == r.port
  {
  }

  lemma {:induction false} TravelOne(p: seq<bv8>, h: RoutingTheorems.Hop, rest: seq<RoutingTheorems.Hop>)
    ensures var next := RoutingP4.Run(p, h.tables, h.drop, h.port);
      RoutingTheorems.Travel(p, [h] + rest) ==
      if next.Dropped? then None else RoutingTheorems.Travel(next.bytes, rest)
  {
    hide RoutingP4.Run;
    assert ([h] + rest)[1..] == rest;
  }

  // ---- a question to the calculator ----

  lemma SameTable(p: seq<bv8>, s: bv8 -> CalcP4.Action, t: bv8 -> CalcP4.Action, ifindex: bv32, drop: bool, port: bv32)
    requires forall op :: s(op) == t(op)
    ensures CalcP4.Run(p, s, ifindex, drop, port) == CalcP4.Run(p, t, ifindex, drop, port)
  {
    hide CalcP4.Parse, CalcP4.Emit, CalcP4.Apply;
  }

  /** A line that asks something the calculator can answer. */
  ghost predicate Asks(l: CalcClient.Line, s: string) {
    CalcClient.WellFormed(l) && s == CalcClient.Text(l) &&
    CalcClient.Decimal(l.a) < 0x1_0000_0000 && CalcClient.Decimal(l.b) < 0x1_0000_0000
  }

  /** From the line typed to the number that comes back: the client's code builds a request, the
      node's code answers it in place, and the result field of what returns by the same port is read.
      A number comes back exactly for a line that asks something, and it is the answer. */
  method Ask(s: string, ifindex: bv32, drop: bool, calculate: bv8 -> Option<CalcP4.Action>) returns (r: Option<bv32>)
    requires forall op :: Calc.ActionOf(calculate(op)) == CalcTheorems.Template(op)
    ensures r.Some? <==> ifindex != 0 && exists l :: Asks(l, s)
    ensures forall l :: Asks(l, s) && r.Some? ==>
              CalcTheorems.IsAnswer(l.op, CalcClient.Decimal(l.a), CalcClient.Decimal(l.b), Value(r.value))
  {
    hide CalcP4.Run, CalcTheorems.Template, CalcTheorems.Reply, CalcTheorems.ResultField, CalcClient.RequestFor,
      CalcClient.WellFormed, CalcClient.Text, CalcClient.Decimal, CalcTheorems.IsAnswer, Value, Calc.ActionOf;
    var request := CalcClient.Request(s);
    AskedExactly(s);
    if request.Fail? {
      return None;
    }
    var pkt := Buffer(request.value);
    var skb := new Skb(pkt, ifindex);
    var md := new Calc.HdrMd();
    var g := new GlobalMetadata(drop, 0);
    SameTable(request.value, op => Calc.ActionOf(calculate(op)), CalcTheorems.Template, ifindex, drop, 0);
    forall l | Asks(l, s) ensures Answered(request.value, ifindex, drop, l) {
      AskedLine(l, s, ifindex, drop);
    }
    var verdict := Calc.Node(skb, md, g, calculate);
    if verdict == Redirect(ifindex) {
      r := Some(CalcTheorems.ResultField(skb.data[..]));
    } else {
      r := None;
    }
  }

  /** One calculator on a packet in a buffer of its own, with any table. */
  method OneCalculator(p: seq<bv8>, ifindex: bv32, drop: bool, calculate: bv8 -> Option<CalcP4.Action>)
    returns (out: seq<bv8>, verdict: Verdict, ghost outcome: CalcP4.Outcome)
    ensures CalcBytes.Expected(p, calculate, ifindex, drop, 0, outcome)
    ensures match outcome
      case Dropped => verdict == Shot
      case Sent(bytes, port) => (if port == 0 then verdict == ToHost else verdict == Redirect(port)) && out == bytes
  {
    hide CalcP4.Run, CalcBytes.Expected, Calc.ActionOf;
    CalcBytes.RunExpected(p, calculate, ifindex, drop, 0);
    outcome := CalcP4.Run(p, op => Calc.ActionOf(calculate(op)), ifindex, drop, 0);
    var pkt := Buffer(p);
    var skb := new Skb(pkt, ifindex);
    var md := new Calc.HdrMd();
    var g := new GlobalMetadata(drop, 0);
    verdict := Calc.Node(skb, md, g, calculate);
    out := skb.data[..];
  }

  /** The request is answered with the answer to this line. */
  ghost predicate Answered(q: seq<bv8>, ifindex: bv32, drop: bool, l: CalcClient.Line)
    requires CalcClient.WellFormed(l)
  {
    var reply := CalcP4.Run(q, CalcTheorems.Template, ifindex, drop, 0);
    reply.Sent? && reply.port == ifindex && |reply.bytes| >= 30 &&
    CalcTheorems.IsAnswer(l.op, CalcClient.Decimal(l.a), CalcClient.Decimal(l.b),
                          Value(CalcTheorems.ResultField(reply.bytes)))
  }

  lemma AskedExactly(s: string)
    ensures CalcClient.RequestFor(s).Ok? <==> exists l :: Asks(l, s)
  {
    hide CalcClient.RequestFor, CalcClient.Text, CalcClient.Decimal;
    CalcTheorems.RequestExactly(s);
    if CalcClient.RequestFor(s).Ok? {
      var l :| CalcClient.WellFormed(l) && s == CalcClient.Text(l) &&
               CalcClient.Decimal(l.a) < 0x1_0000_0000 && CalcClient.Decimal(l.b) < 0x1_0000_0000;
      assert Asks(l, s);
    }
  }

  lemma AskedLine(l: CalcClient.Line, s: string, ifindex: bv32, drop: bool)
    requires Asks(l, s)
    ensures CalcClient.RequestFor(s).Ok? && Answered(CalcClient.RequestFor(s).value, ifindex, drop, l)
  {
    hide CalcP4.Run, CalcTheorems.Template, CalcTheorems.Reply, CalcTheorems.ResultField, CalcClient.RequestFor,
      CalcClient.Text, CalcClient.Decimal, CalcTheorems.IsAnswer, Value, BigEndian;
    CalcTheorems.EndToEnd(l, ifindex, drop, 0);
    var reply := CalcP4.Run(CalcClient.RequestFor(s).value, CalcTheorems.Template, ifindex, drop, 0);
    CalcTheorems.ResultBytes(reply.bytes);
  }
}
