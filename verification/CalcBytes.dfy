// The calculator on bytes: for every packet and table, what leaves the node and by which
// port, said without parser, headers or structs.

module CalcBytes {
  import opened Wrappers
  import opened Bytes
  import opened WireFormat
  import opened HeaderLayout
  import opened WordArithmetic
  import opened CalcP4
  import opened CalcTheorems
  import Calc

  /** Type 0x1234, then 'P', '4' and version 1, and room for a whole header. */
  predicate IsRequest(p: seq<bv8>) {
    |p| >= 30 && p[12] == 0x12 && p[13] == 0x34 && p[14] == 0x50 && p[15] == 0x34 && p[16] == 0x01
  }

  /** The four bytes r are the result for the operands a and b: as numbers in base 256 modulo
      2^32, or as words bit by bit. */
  ghost predicate IsResult(action: Action, a: seq<bv8>, b: seq<bv8>, r: seq<bv8>)
    requires |a| == |b| == |r| == 4
  {
    match action
    case Add => BigEndian(r) == (BigEndian(a) + BigEndian(b)) % 0x1_0000_0000
    case Sub => BigEndian(r) == (BigEndian(a) - BigEndian(b)) % 0x1_0000_0000
    case And => RowOf(r, 0) == RowOf(a, 0) & RowOf(b, 0)
    case Or => RowOf(r, 0) == RowOf(a, 0) | RowOf(b, 0)
    case Xor => RowOf(r, 0) == RowOf(a, 0) ^ RowOf(b, 0)
    case _ => false
  }

  /** q answers p: the addresses swapped, the result in bytes 26 to 29, the rest as it was. */
  ghost predicate Answers(p: seq<bv8>, action: Action, q: seq<bv8>)
    requires |p| >= 30
  {
    |q| == |p| && q[..6] == p[6..12] && q[6..12] == p[..6] && q[12..26] == p[12..26] && q[30..] == p[30..] &&
    IsResult(action, p[18..22], p[22..26], q[26..30])
  }

  /** What the node does with a packet, for the entry the table has for its byte 17. */
  ghost predicate Expected(p: seq<bv8>, calculate: bv8 -> Option<Action>, ifindex: bv32, drop: bool, port: bv32,
                           outcome: Outcome)
  {
    if !IsRequest(p) then outcome == Dropped else
    match calculate(p[17])
    case Some(Drop) => outcome == Dropped
    case None => outcome == if drop then Dropped else Sent(p, port)
    case Some(NoAction) => outcome == if drop then Dropped else Sent(p, port)
    case Some(action) => outcome.Sent? && outcome.port == ifindex && Answers(p, action, outcome.bytes)
  }

  // ---- the program meets it ----

  lemma CalcTypeBits(a: bv8, b: bv8)
    ensures Be16(a, b) == 0x1234 <==> a == 0x12 && b == 0x34
  {
  }

  lemma IsRequestExactly(p: seq<bv8>)
    ensures IsCalculation(p) <==> IsRequest(p)
    ensures IsRequest(p) ==> P4calcOf(p[14..30]).op == p[17]
  {
    hide Be16, RowOf, MacOf;
    if |p| >= 30 {
      CalcTypeBits(p[12], p[13]);
    }
  }

  /** An operation sends the reply with its result. */
  lemma Operated(p: seq<bv8>, table: bv8 -> Action, ifindex: bv32, drop: bool, port: bv32)
    requires IsCalculation(p)
    ensures var h := P4calcOf(p[14..30]);
      Run(p, table, ifindex, drop, port) ==
      match table(h.op)
      case Drop => Dropped
      case NoAction => if drop then Dropped else Sent(p, port)
      case action => Sent(Reply(p, Compute(action, h.operandA, h.operandB)), ifindex)
  {
    hide EthernetOf, EthernetBytes, P4calcOf, P4calcBytes, Plus, Minus, BitAnd, BitOr, BitXor, Reply;
    var h := P4calcOf(p[14..30]);
    if !table(h.op).Drop? && !table(h.op).NoAction? {
      SentBackBytes(p, Compute(table(h.op), h.operandA, h.operandB));
    } else {
      EthernetRoundTripBytes(p[..14]);
      P4calcRoundTripBytes(p[14..30]);
      assert p == p[..14] + p[14..30] + p[30..];
    }
  }

  lemma OperandBytes(p: seq<bv8>)
    requires |p| >= 30
    ensures var h := P4calcOf(p[14..30]); Row(h.operandA) == p[18..22] && Row(h.operandB) == p[22..26]
  {
    hide Row, RowOf;
    var b := p[14..30];
    RowBytes(b, 1);
    RowBytes(b, 2);
    SliceOfSlice(p, 14, 16, 4, 8);
    SliceOfSlice(p, 14, 16, 8, 12);
  }

  lemma RowReadBack(x: bv32)
    ensures RowOf(Row(x), 0) == x
  {
    hide Row, Be32;
    RowRoundTrip(x);
  }

  lemma AndBytes(x: bv32, y: bv32)
    ensures IsResult(And, Row(x), Row(y), Row(BitAnd(x, y)))
  {
    hide Row, RowOf, BitAnd;
    RowReadBack(x);
    RowReadBack(y);
    RowReadBack(BitAnd(x, y));
    AndIs(x, y);
  }

  lemma OrBytes(x: bv32, y: bv32)
    ensures IsResult(Or, Row(x), Row(y), Row(BitOr(x, y)))
  {
    hide Row, RowOf, BitOr;
    RowReadBack(x);
    RowReadBack(y);
    RowReadBack(BitOr(x, y));
    OrIs(x, y);
  }

  lemma XorBytes(x: bv32, y: bv32)
    ensures IsResult(Xor, Row(x), Row(y), Row(BitXor(x, y)))
  {
    hide Row, RowOf, BitXor;
    RowReadBack(x);
    RowReadBack(y);
    RowReadBack(BitXor(x, y));
    XorIs(x, y);
  }

  lemma ComputedBytes(action: Action, x: bv32, y: bv32)
    requires !action.Drop? && !action.NoAction?
    ensures IsResult(action, Row(x), Row(y), Row(Compute(action, x, y)))
  {
    hide Row, RowOf, BigEndian, Value, Plus, Minus, BitAnd, BitOr, BitXor;
    match action
    case Add =>
      BigEndianOfRow(x);
      BigEndianOfRow(y);
      BigEndianOfRow(Plus(x, y));
      PlusValue(x, y);
    case Sub =>
      BigEndianOfRow(x);
      BigEndianOfRow(y);
      BigEndianOfRow(Minus(x, y));
      MinusValue(x, y);
    case And => AndBytes(x, y);
    case Or => OrBytes(x, y);
    case Xor => XorBytes(x, y);
  }

  lemma ReplyAnswers(p: seq<bv8>, action: Action)
    requires |p| >= 30 && !action.Drop? && !action.NoAction?
    ensures var h := P4calcOf(p[14..30]); Answers(p, action, Reply(p, Compute(action, h.operandA, h.operandB)))
  {
    hide Row, P4calcOf, Compute, IsResult;
    var h := P4calcOf(p[14..30]);
    OperandBytes(p);
    ComputedBytes(action, h.operandA, h.operandB);
    ReplyPlaces(p, Compute(action, h.operandA, h.operandB));
  }

  /** For every packet, any table, and every drop flag and ports. */
  lemma RunExpected(p: seq<bv8>, calculate: bv8 -> Option<Action>, ifindex: bv32, drop: bool, port: bv32)
    ensures Expected(p, calculate, ifindex, drop, port, Run(p, op => Calc.ActionOf(calculate(op)), ifindex, drop, port))
  {
    hide Run, IsRequest, IsCalculation, P4calcOf, Reply, Compute, Answers;
    IsRequestExactly(p);
    var table: bv8 -> Action := op => Calc.ActionOf(calculate(op));
    if IsRequest(p) {
      Operated(p, table, ifindex, drop, port);
      var action := table(p[17]);
      if !action.Drop? && !action.NoAction? {
        ReplyAnswers(p, action);
      }
    } else {
      DroppedExactly(p, table, ifindex, drop, port);
    }
  }
}
