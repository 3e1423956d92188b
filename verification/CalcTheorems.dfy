// What the calculator answers, in bytes, and the way of a line typed at the client to the
// number that comes back.

module CalcTheorems {
  import opened Wrappers
  import opened Bytes
  import opened WireFormat
  import opened WordArithmetic
  import opened CalcP4
  import opened CalcClient

  /** The entries of the template, and operation_drop on a miss. */
  function Template(op: bv8): Action {
    if op == 0x2B then Add else if op == 0x2D then Sub else if op == 0x26 then And
    else if op == 0x7C then Or else if op == 0x5E then Xor else Drop
  }

  predicate IsCalculation(p: seq<bv8>): (r: bool)
    ensures r ==> |p| >= 30
  {
    |p| >= 30 && EthernetOf(p[..14]).etherType == 0x1234 && Marked(P4calcOf(p[14..30]))
  }

  predicate Known(op: bv8) {
    op == 0x2B || op == 0x2D || op == 0x26 || op == 0x7C || op == 0x5E
  }

  /** The result field of a packet. */
  function ResultField(p: seq<bv8>): bv32
    requires |p| >= 30
  {
    P4calcOf(p[14..30]).res
  }

  /** Addresses swapped and the result filled in; no other byte changes. */
  function Reply(p: seq<bv8>, result: bv32): seq<bv8>
    requires |p| >= 30
  {
    p[6..12] + p[..6] + p[12..26] + Row(result) + p[30..]
  }

  /** A packet is answered exactly when it is a calculation with one of the five operators;
      anything else is dropped, as the program's own description says. */
  lemma AnsweredExactly(p: seq<bv8>, ifindex: bv32, drop: bool, port: bv32)
    ensures Run(p, Template, ifindex, drop, port).Sent? <==> IsCalculation(p) && Known(P4calcOf(p[14..30]).op)
  {
    hide EthernetOf, P4calcOf, Plus, Minus, BitAnd, BitOr, BitXor;
  }

  /** With any other table: an entry NoAction, or a kernel that gives no answer, lets the
      packet through unless it was to be dropped already. */
  lemma DroppedExactly(p: seq<bv8>, table: bv8 -> Action, ifindex: bv32, drop: bool, port: bv32)
    ensures Run(p, table, ifindex, drop, port) == Dropped <==>
            !IsCalculation(p) || table(P4calcOf(p[14..30]).op).Drop? ||
            (table(P4calcOf(p[14..30]).op).NoAction? && drop)
  {
    hide EthernetOf, P4calcOf, Plus, Minus, BitAnd, BitOr, BitXor;
  }

  lemma SwappedEthernet(b: seq<bv8>)
    requires |b| == 14
    ensures var e := EthernetOf(b);
      EthernetBytes(e.(dstAddr := e.srcAddr, srcAddr := e.dstAddr)) == b[6..12] + b[..6] + b[12..14]
  {
    hide Mac, MacOf, Half, Be16;
    MacRoundTripBytes(b[..6]);
    MacRoundTripBytes(b[6..12]);
    HalfRoundTripBytes(b[12], b[13]);
    assert b[12..14] == [b[12], b[13]];
  }

  lemma FilledIn(b: seq<bv8>, result: bv32)
    requires |b| == 16
    ensures P4calcBytes(P4calcOf(b).(res := result)) == b[..12] + Row(result)
  {
    hide Row, RowOf;
    RowBytes(b, 1);
    RowBytes(b, 2);
    assert b[..12] == [b[0]] + [b[1]] + [b[2]] + [b[3]] + b[4..8] + b[8..12];
  }

  lemma SentBackBytes(p: seq<bv8>, result: bv32)
    requires |p| >= 30
    ensures var hdr := Headers(Some(EthernetOf(p[..14])), Some(P4calcOf(p[14..30])));
      Emit(SendBack(hdr, result)) + p[30..] == Reply(p, result)
  {
    hide EthernetOf, EthernetBytes, P4calcOf, P4calcBytes, Row;
    SwappedEthernet(p[..14]);
    FilledIn(p[14..30], result);
    assert p[12..26] == p[..14][12..14] + p[14..30][..12];
  }

  /** The answer to a calculation: its bytes, and the port it leaves by. */
  lemma ReplyIs(p: seq<bv8>, ifindex: bv32, drop: bool, port: bv32)
    requires IsCalculation(p) && Known(P4calcOf(p[14..30]).op)
    ensures var h := P4calcOf(p[14..30]);
      Known(h.op) && var result := Compute(Template(h.op), h.operandA, h.operandB);
      Run(p, Template, ifindex, drop, port) == Sent(Reply(p, result), ifindex)
  {
    hide EthernetOf, P4calcOf, Emit, SendBack, Reply, Plus, Minus, BitAnd, BitOr, BitXor;
    var h := P4calcOf(p[14..30]);
    SentBackBytes(p, Compute(Template(h.op), h.operandA, h.operandB));
  }

  // ---- asking again ----

  lemma ReplyParts(p: seq<bv8>, result: bv32)
    requires |p| >= 30
    ensures var q := Reply(p, result);
      |q| == |p| && q[..14] == p[6..12] + p[..6] + p[12..14] &&
      q[14..30] == p[14..26] + Row(result) && q[30..] == p[30..]
  {
    hide Row;
  }

  lemma ReplyHeaders(p: seq<bv8>, result: bv32)
    requires |p| >= 30
    ensures var e, q := EthernetOf(p[..14]), Reply(p, result);
      EthernetOf(q[..14]) == e.(dstAddr := e.srcAddr, srcAddr := e.dstAddr) &&
      P4calcOf(q[14..30]) == P4calcOf(p[14..30]).(res := result)
  {
    hide EthernetOf, EthernetBytes, P4calcOf, P4calcBytes, Row, Reply;
    var e, h := EthernetOf(p[..14]), P4calcOf(p[14..30]);
    ReplyParts(p, result);
    SwappedEthernet(p[..14]);
    assert p[..14][6..12] == p[6..12] && p[..14][..6] == p[..6] && p[..14][12..14] == p[12..14];
    EthernetRoundTrip(e.(dstAddr := e.srcAddr, srcAddr := e.dstAddr));
    FilledIn(p[14..30], result);
    assert p[14..30][..12] == p[14..26];
    P4calcRoundTrip(h.(res := result));
  }

  lemma ReplyTwice(p: seq<bv8>, r: bv32)
    requires |p| >= 30
    ensures |Reply(p, r)| >= 30 && Reply(Reply(p, r), r) == Splice(p, 26, Row(r))
  {
    hide Row;
    ReplyPlaces(p, r);
    assert p[..26] == p[..6] + p[6..12] + p[12..26];
  }

  lemma ReplyPlaces(p: seq<bv8>, result: bv32)
    requires |p| >= 30
    ensures var q := Reply(p, result);
      |q| == |p| && q[..6] == p[6..12] && q[6..12] == p[..6] && q[12..26] == p[12..26] && q[26..30] == Row(result) &&
      q[30..] == p[30..]
  {
    hide Row;
  }

  /** A reply is a calculation again. Sent back to the calculator it returns as the request it
      came from, with the result filled in: the addresses are back in place. */
  lemma AskedTwice(p: seq<bv8>, ifindex: bv32, drop: bool, port: bv32)
    requires IsCalculation(p) && Known(P4calcOf(p[14..30]).op)
    ensures var h := P4calcOf(p[14..30]);
      var r := Compute(Template(h.op), h.operandA, h.operandB);
      Run(Reply(p, r), Template, ifindex, drop, port) == Sent(Splice(p, 26, Row(r)), ifindex)
  {
    hide EthernetOf, P4calcOf, Row, Splice, Reply, Run, Compute;
    var h := P4calcOf(p[14..30]);
    var r := Compute(Template(h.op), h.operandA, h.operandB);
    ReplyHeaders(p, r);
    ReplyParts(p, r);
    ReplyIs(Reply(p, r), ifindex, drop, port);
    ReplyTwice(p, r);
  }

  // ---- from the line typed to the number that comes back ----

  /** What the operator character means. */
  function Answer(op: char, x: bv32, y: bv32): bv32
    requires IsOperator(op)
  {
    if op == '+' then Plus(x, y) else if op == '-' then Minus(x, y)
    else if op == '&' then BitAnd(x, y) else if op == '|' then BitOr(x, y) else BitXor(x, y)
  }

  lemma TemplateAnswers(op: char, x: bv32, y: bv32)
    requires IsOperator(op)
    ensures Known(OperatorByte(op)) && Compute(Template(OperatorByte(op)), x, y) == Answer(op, x, y)
  {
    hide Plus, Minus, BitAnd, BitOr, BitXor;
  }

  /** The client's operators are exactly those the template answers, by character code. */
  lemma SameOperators(op: bv8)
    ensures !Template(op).Drop? <==> exists c :: IsOperator(c) && c as int == op as int
  {
    ByteCodes(op);
    if op == 0x2B {
      assert IsOperator('+');
    } else if op == 0x2D {
      assert IsOperator('-');
    } else if op == 0x26 {
      assert IsOperator('&');
    } else if op == 0x7C {
      assert IsOperator('|');
    } else if op == 0x5E {
      assert IsOperator('^');
    }
  }

  lemma ByteCodes(op: bv8)
    ensures op as int == 0x2B <==> op == 0x2B
    ensures op as int == 0x2D <==> op == 0x2D
    ensures op as int == 0x26 <==> op == 0x26
    ensures op as int == 0x7C <==> op == 0x7C
    ensures op as int == 0x5E <==> op == 0x5E
  {
  }

  lemma RequestIsCalculation(h: P4calc)
    requires Marked(h)
    ensures var q := RequestBytes(h);
      IsCalculation(q) && EthernetOf(q[..14]) == ClientEthernet && P4calcOf(q[14..30]) == h
  {
    hide EthernetOf, EthernetBytes, P4calcOf, P4calcBytes, Marked;
    var q := RequestBytes(h);
    assert q[..14] == EthernetBytes(ClientEthernet) && q[14..30] == P4calcBytes(h);
    EthernetRoundTrip(ClientEthernet);
    P4calcRoundTrip(h);
  }

  /** The request for a line of number, operator, number. */
  lemma LineIsRequest(l: Line)
    requires WellFormed(l)
    ensures RequestFor(Text(l)) == match RequestHeader(l.a, l.op, l.b)
      case Fail(error) => Fail(error)
      case Ok(h) => Ok(RequestBytes(h))
  {
    hide Expression, Text, RequestHeader, RequestBytes, All;
    LineIsAccepted(l);
  }

  /** The header of a request with operands x and y. */
  function Asked(op: char, x: bv32, y: bv32): P4calc
    requires IsOperator(op)
  {
    P4calc(0x50, 0x34, 0x01, OperatorByte(op), x, y, 0)
  }

  lemma SmallOperands(l: Line)
    requires WellFormed(l) && Decimal(l.a) < 0x1_0000_0000 && Decimal(l.b) < 0x1_0000_0000
    ensures RequestFor(Text(l)) == Ok(RequestBytes(Asked(l.op, Field32(Decimal(l.a)), Field32(Decimal(l.b)))))
  {
    hide RequestBytes, RequestFor, OperatorByte, Text, Decimal, All, Field32;
    LineIsRequest(l);
  }

  lemma AskedIsAnswered(op: char, x: bv32, y: bv32, ifindex: bv32, drop: bool, port: bv32)
    requires IsOperator(op)
    ensures var request, answer := RequestBytes(Asked(op, x, y)), Answer(op, x, y);
      |request| >= 30 && var reply := Reply(request, answer);
      Run(request, Template, ifindex, drop, port) == Sent(reply, ifindex) &&
      |reply| >= 30 && ResultField(reply) == answer &&
      EthernetOf(reply[..14]) == ClientEthernet.(dstAddr := ClientEthernet.srcAddr, srcAddr := ClientEthernet.dstAddr)
  {
    hide EthernetOf, P4calcOf, RequestBytes, Reply, Run, Compute, Answer, Template, Known, OperatorByte;
    var h := Asked(op, x, y);
    RequestIsCalculation(h);
    TemplateAnswers(op, x, y);
    ReplyIs(RequestBytes(h), ifindex, drop, port);
    ReplyHeaders(RequestBytes(h), Answer(op, x, y));
    ReplyParts(RequestBytes(h), Answer(op, x, y));
  }

  // ---- over the numbers typed ----

  /** What the number n that comes back is for the numbers x and y: sum and difference modulo
      2^32, and the logical operations on the words with these values. */
  ghost predicate IsAnswer(op: char, x: nat, y: nat, n: int) {
    if op == '+' then n == (x + y) % 0x1_0000_0000
    else if op == '-' then n == (x - y) % 0x1_0000_0000
    else exists u: bv32, v: bv32 :: Value(u) == x && Value(v) == y &&
           n == Value(if op == '&' then u & v else if op == '|' then u | v else u ^ v)
  }

  lemma FieldValue(n: nat)
    requires n < 0x1_0000_0000
    ensures Value(Field32(n)) == n
  {
    hide Value;
    ConvertedValue(n);
  }

  lemma AnswerMeans(op: char, x: nat, y: nat)
    requires IsOperator(op) && x < 0x1_0000_0000 && y < 0x1_0000_0000
    ensures IsAnswer(op, x, y, Value(Answer(op, Field32(x), Field32(y))))
  {
    hide Value, Field32, Plus, Minus, BitAnd, BitOr, BitXor;
    var u, v := Field32(x), Field32(y);
    FieldValue(x);
    FieldValue(y);
    PlusValue(u, v);
    MinusValue(u, v);
    if op != '+' && op != '-' {
      LogicalAnswer(op, u, v);
    }
  }

  lemma LogicalAnswer(op: char, u: bv32, v: bv32)
    requires IsOperator(op) && op != '+' && op != '-'
    ensures IsAnswer(op, Value(u), Value(v), Value(Answer(op, u, v)))
  {
    hide Value, BitAnd, BitOr, BitXor;
    AndIs(u, v);
    OrIs(u, v);
    XorIs(u, v);
  }

  lemma AndIs(u: bv32, v: bv32)
    ensures BitAnd(u, v) == u & v
  {
  }

  lemma OrIs(u: bv32, v: bv32)
    ensures BitOr(u, v) == u | v
  {
  }

  lemma XorIs(u: bv32, v: bv32)
    ensures BitXor(u, v) == u ^ v
  {
  }

  /** The request in bytes: addresses, type, marks, the operator's character, the two numbers in
      base 256 with the most significant byte first, no result yet, and one blank. */
  lemma RequestOnBytes(l: Line)
    requires WellFormed(l) && Decimal(l.a) < 0x1_0000_0000 && Decimal(l.b) < 0x1_0000_0000
    ensures RequestFor(Text(l)).Ok? && |RequestFor(Text(l)).value| == 31
    ensures var q := RequestFor(Text(l)).value;
      q[..6] == [0x10, 0x00, 0x00, 0x02, 0xAA, 0xBB] && q[6..12] == [0x10, 0x00, 0x00, 0x01, 0xAA, 0xBB] &&
      q[12..14] == [0x12, 0x34] && q[14..17] == [0x50, 0x34, 0x01] && q[17] as int == l.op as int &&
      BigEndian(q[18..22]) == Decimal(l.a) && BigEndian(q[22..26]) == Decimal(l.b) &&
      q[26..30] == [0, 0, 0, 0] && q[30] as int == ' ' as int
  {
    hide RequestFor, RequestBytes, Text, Decimal, All, Field32, BigEndian, OperatorByte, Row, EthernetBytes, Value;
    var x, y := Field32(Decimal(l.a)), Field32(Decimal(l.b));
    var q := RequestBytes(Asked(l.op, x, y));
    SmallOperands(l);
    RequestParts(Asked(l.op, x, y));
    ClientBytes();
    assert q[..6] == q[..14][..6] && q[6..12] == q[..14][6..12] && q[12..14] == q[..14][12..14];
    assert q[14..17] == q[14..18][..3] && q[17] == q[14..18][3];
    OperatorCode(l.op);
    BigEndianOfRow(x);
    BigEndianOfRow(y);
    FieldValue(Decimal(l.a));
    FieldValue(Decimal(l.b));
  }

  lemma RequestParts(h: P4calc)
    ensures var q := RequestBytes(h);
      |q| == 31 && q[..14] == EthernetBytes(ClientEthernet) && q[14..18] == [h.p, h.four, h.ver, h.op] &&
      q[18..22] == Row(h.operandA) && q[22..26] == Row(h.operandB) && q[26..30] == Row(h.res) && q[30] == 0x20
  {
    hide EthernetBytes, P4calcBytes, Row;
    var q, b := RequestBytes(h), P4calcBytes(h);
    CalculatorParts(h);
    assert q[14..30] == b;
    assert q[14..18] == b[..4] && q[18..22] == b[4..8] && q[22..26] == b[8..12] && q[26..30] == b[12..16];
  }

  lemma CalculatorParts(h: P4calc)
    ensures var b := P4calcBytes(h);
      b[..4] == [h.p, h.four, h.ver, h.op] && b[4..8] == Row(h.operandA) && b[8..12] == Row(h.operandB) &&
      b[12..16] == Row(h.res)
  {
    hide Row;
    var marks: seq<bv8> := [h.p, h.four, h.ver, h.op];
    assert marks == [h.p] + [h.four] + [h.ver] + [h.op];
    FourParts(marks, Row(h.operandA), Row(h.operandB), Row(h.res));
  }

  lemma FourParts(a: seq<bv8>, b: seq<bv8>, c: seq<bv8>, d: seq<bv8>)
    requires |a| == |b| == |c| == |d| == 4
    ensures var s := a + b + c + d; s[..4] == a && s[4..8] == b && s[8..12] == c && s[12..16] == d
  {
  }

  lemma ClientBytes()
    ensures EthernetBytes(ClientEthernet) ==
            [0x10, 0x00, 0x00, 0x02, 0xAA, 0xBB, 0x10, 0x00, 0x00, 0x01, 0xAA, 0xBB, 0x12, 0x34]
    ensures Row(0) == [0, 0, 0, 0]
  {
    hide Mac, Half, Row;
    ClientMacs();
    var a, b: seq<bv8> := [0x10, 0x00, 0x00, 0x02, 0xAA, 0xBB], [0x10, 0x00, 0x00, 0x01, 0xAA, 0xBB];
    assert EthernetBytes(ClientEthernet) == a + b + [0x12, 0x34];
  }

  lemma ClientMacs()
    ensures Mac(0x1000_0002_AABB) == [0x10, 0x00, 0x00, 0x02, 0xAA, 0xBB]
    ensures Mac(0x1000_0001_AABB) == [0x10, 0x00, 0x00, 0x01, 0xAA, 0xBB]
    ensures Half(0x1234) == [0x12, 0x34] && Row(0) == [0, 0, 0, 0]
  {
  }

  lemma OperatorCode(op: char)
    requires IsOperator(op)
    ensures OperatorByte(op) as int == op as int
  {
  }

  /** The number in the result field stands there in base 256. */
  lemma ResultBytes(p: seq<bv8>)
    requires |p| >= 30
    ensures BigEndian(p[26..30]) == Value(ResultField(p))
  {
    hide Row, RowOf, BigEndian, Value;
    var b := p[14..30];
    RowBytes(b, 3);
    assert b[12..16] == p[26..30];
    BigEndianOfRow(RowOf(b, 3));
  }

  /** For every line, whatever white space is in it and whatever follows the second number:
      numbers below 2^32 are answered with their sum, difference and so on in 32 bits, from
      the port the request came in on, with the addresses swapped. */
  lemma EndToEnd(l: Line, ifindex: bv32, drop: bool, port: bv32)
    requires WellFormed(l) && Decimal(l.a) < 0x1_0000_0000 && Decimal(l.b) < 0x1_0000_0000
    ensures RequestFor(Text(l)).Ok? && |RequestFor(Text(l)).value| == 31
    ensures var q := RequestFor(Text(l)).value;
      var reply := Run(q, Template, ifindex, drop, port);
      reply.Sent? && reply.port == ifindex && |reply.bytes| == 31 &&
      reply.bytes[..26] == q[6..12] + q[..6] + q[12..26] && reply.bytes[30..] == q[30..] &&
      IsAnswer(l.op, Decimal(l.a), Decimal(l.b), BigEndian(reply.bytes[26..30]))
  {
    hide ResultField, RequestBytes, Run, Answer, Text, RequestFor, Decimal, Asked, All, Field32, IsAnswer, BigEndian,
      EthernetOf, Row, Value;
    var x, y := Field32(Decimal(l.a)), Field32(Decimal(l.b));
    SmallOperands(l);
    RequestParts(Asked(l.op, x, y));
    AskedIsAnswered(l.op, x, y, ifindex, drop, port);
    AnswerMeans(l.op, Decimal(l.a), Decimal(l.b));
    ResultBytes(Reply(RequestBytes(Asked(l.op, x, y)), Answer(l.op, x, y)));
  }

  /** Asked "1 + 2", the calculator answers 3. */
  lemma ThreeComesBack(ifindex: bv32, drop: bool, port: bv32)
    ensures RequestFor("1 + 2").Ok?
    ensures var reply := Run(RequestFor("1 + 2").value, Template, ifindex, drop, port);
      reply.Sent? && reply.port == ifindex && |reply.bytes| == 31 && BigEndian(reply.bytes[26..30]) == 3
  {
    hide RequestFor, Run, Text, BigEndian, Decimal, WellFormed;
    OnePlusTwo();
    EndToEnd(ONE_PLUS_TWO, ifindex, drop, port);
  }

  /** A number of more than 32 bits never becomes a request, and nothing is sent. */
  lemma RequestExactly(s: string)
    ensures RequestFor(s).Ok? <==>
            exists l :: WellFormed(l) && s == Text(l) && Decimal(l.a) < 0x1_0000_0000 && Decimal(l.b) < 0x1_0000_0000
  {
    hide Expression, RequestBytes, Decimal, Text, IsDigit, IsSpace, IsOperator, All, StartsWith;
    if RequestFor(s).Ok? {
      var l := AcceptedIsLine(s);
      LineIsRequest(l);
    }
    forall l | WellFormed(l) && s == Text(l) && Decimal(l.a) < 0x1_0000_0000 && Decimal(l.b) < 0x1_0000_0000
      ensures RequestFor(s).Ok?
    {
      LineIsRequest(l);
    }
  }
}
