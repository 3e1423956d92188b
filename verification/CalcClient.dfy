// The calculator's client: parsers that append to a shared token list, and the request
// they lead to.

module CalcClient {
  import opened Wrappers
  import opened Bytes
  import opened WireFormat
  import opened CalcP4

  /** The exceptions that end an evaluation; an operand of more than 32 bits cannot be packed. */
  datatype Error = NumParseError(message: string) | OpParseError(message: string) | OperandTooLarge

  const EXPECTED_NUMBER := NumParseError("Expected number literal.")
  const EXPECTED_OPERATOR := NumParseError("Expected binary operator '-', '+', '&', '|', or '^'.")

  datatype Result<+T> = Ok(value: T) | Fail(error: Error)

  /** The kind is always "num", for operators too. */
  datatype Token = Token(kind: string, value: string)

  // ---- what the patterns match ----

  /** \s on text: the characters Unicode counts as white space */
  predicate IsSpace(c: char) {
    var n := c as int;
    0x09 <= n <= 0x0D || 0x1C <= n <= 0x20 || n == 0x85 || n == 0xA0 || n == 0x1680 || 0x2000 <= n <= 0x200A ||
    n == 0x2028 || n == 0x2029 || n == 0x202F || n == 0x205F || n == 0x3000
  }

  /** The 29 of them, one by one. */
  const SPACES: seq<int> := [
    0x09, 0x0A, 0x0B, 0x0C, 0x0D, 0x1C, 0x1D, 0x1E, 0x1F, 0x20, 0x85, 0xA0, 0x1680, 0x2000, 0x2001, 0x2002, 0x2003,
    0x2004, 0x2005, 0x2006, 0x2007, 0x2008, 0x2009, 0x200A, 0x2028, 0x2029, 0x202F, 0x205F, 0x3000
  ]

  lemma SpacesListed(c: char)
    ensures IsSpace(c) <==> c as int in SPACES
  {
  }

  predicate IsDigit(c: char) {
    '0' <= c <= '9'
  }

  predicate IsOperator(c: char) {
    c == '-' || c == '+' || c == '&' || c == '|' || c == '^'
  }

  predicate All(p: char -> bool, t: string) {
    forall k :: 0 <= k < |t| ==> p(t[k])
  }

  predicate StartsWith(p: char -> bool, t: string) {
    |t| > 0 && p(t[0])
  }

  /** The length of the longest front of t whose characters satisfy p. */
  function Span(p: char -> bool, t: string): (n: nat)
    ensures n <= |t| && All(p, t[..n]) && !StartsWith(p, t[n..])
  {
    if !StartsWith(p, t) then 0 else
    var n := Span(p, t[1..]);
    assert t[..n + 1] == [t[0]] + t[1..][..n];
    n + 1
  }

  /** A match: the group, and where the match ends. */
  datatype Match = Match(group: string, end: nat)

  function MatchNumber(t: string): Option<Match> {
    var a := Span(IsSpace, t);
    var n := Span(IsDigit, t[a..]);
    if n == 0 then None else Some(Match(t[a..a + n], a + n + Span(IsSpace, t[a + n..])))
  }

  function MatchOperator(t: string): Option<Match> {
    var a := Span(IsSpace, t);
    if a == |t| || !IsOperator(t[a]) then None else Some(Match(t[a..a + 1], a + 1 + Span(IsSpace, t[a + 1..])))
  }

  function From(s: string, i: nat): string {
    if i <= |s| then s[i..] else ""
  }

  // ---- the parsers as functions ----

  type Parser = (string, nat, seq<Token>) -> Result<(nat, seq<Token>)>

  function Accept(i: nat, ts: seq<Token>, m: Option<Match>, error: Error): Result<(nat, seq<Token>)> {
    match m
    case Some(Match(group, end)) => Ok((i + end, ts + [Token("num", group)]))
    case None => Fail(error)
  }

  function Number(s: string, i: nat, ts: seq<Token>): Result<(nat, seq<Token>)> {
    Accept(i, ts, MatchNumber(From(s, i)), EXPECTED_NUMBER)
  }

  function Operator(s: string, i: nat, ts: seq<Token>): Result<(nat, seq<Token>)> {
    Accept(i, ts, MatchOperator(From(s, i)), EXPECTED_OPERATOR)
  }

  /** make_seq */
  function MakeSeq(p1: Parser, p2: Parser): Parser {
    (s, i, ts) => match p1(s, i, ts)
      case Ok((j, ts2)) => p2(s, j, ts2)
      case Fail(error) => Fail(error)
  }

  function Expression(): Parser {
    MakeSeq(Number, MakeSeq(Operator, Number))
  }

  // ---- the parsers on a shared list ----

  class TokenList {
    var tokens: seq<Token>

    constructor ()
      ensures tokens == []
    {
      tokens := [];
    }

    method Append(t: Token)
      modifies this
      ensures tokens == old(tokens) + [t]
    {
      tokens := tokens + [t];
    }
  }

  method NumParser(s: string, i: nat, ts: TokenList) returns (r: Result<nat>)
    modifies ts
    ensures match Number(s, i, old(ts.tokens))
      case Ok((j, tokens)) => r == Ok(j) && ts.tokens == tokens
      case Fail(error) => r == Fail(error) && ts.tokens == old(ts.tokens)
  {
    match MatchNumber(From(s, i)) {
      case Some(Match(group, end)) =>
        ts.Append(Token("num", group));
        return Ok(i + end);
      case None =>
        return Fail(EXPECTED_NUMBER);
    }
  }

  method OpParser(s: string, i: nat, ts: TokenList) returns (r: Result<nat>)
    modifies ts
    ensures match Operator(s, i, old(ts.tokens))
      case Ok((j, tokens)) => r == Ok(j) && ts.tokens == tokens
      case Fail(error) => r == Fail(error) && ts.tokens == old(ts.tokens)
  {
    match MatchOperator(From(s, i)) {
      case Some(Match(group, end)) =>
        ts.Append(Token("num", group));
        return Ok(i + end);
      case None =>
        return Fail(EXPECTED_OPERATOR);
    }
  }

  /** Number, operator, number on one list is the composition of the three parsers. */
  method ParseLine(s: string) returns (r: Result<seq<Token>>)
    ensures match Expression()(s, 0, [])
      case Ok((_, tokens)) => r == Ok(tokens)
      case Fail(error) => r == Fail(error)
  {
    hide Number, Operator;
    var ts := new TokenList();
    var i := NumParser(s, 0, ts);
    if i.Fail? {
      return Fail(i.error);
    }
    i := OpParser(s, i.value, ts);
    if i.Fail? {
      return Fail(i.error);
    }
    i := NumParser(s, i.value, ts);
    if i.Fail? {
      return Fail(i.error);
    }
    return Ok(ts.tokens);
  }

  // ---- exactly which lines are expressions ----

  /** A line that begins with number, operator, number, white space anywhere before and
      between them; what follows is ignored. */
  datatype Line = Line(w0: string, a: string, w1: string, op: char, w2: string, b: string, rest: string)

  predicate IsNumeral(t: string) {
    t != "" && All(IsDigit, t)
  }

  predicate WellFormed(l: Line) {
    && All(IsSpace, l.w0) && All(IsSpace, l.w1) && All(IsSpace, l.w2)
    && IsNumeral(l.a) && IsOperator(l.op) && IsNumeral(l.b)
    && !StartsWith(IsDigit, l.rest)
  }

  function Text(l: Line): string {
    l.w0 + l.a + l.w1 + [l.op] + l.w2 + l.b + l.rest
  }

  function Tokens(l: Line): seq<Token> {
    [Token("num", l.a), Token("num", [l.op]), Token("num", l.b)]
  }

  lemma {:induction false} SpanOf(p: char -> bool, w: string, rest: string)
    requires All(p, w) && !StartsWith(p, rest)
    ensures Span(p, w + rest) == |w|
  {
    if w == "" {
      assert w + rest == rest;
    } else {
      assert (w + rest)[1..] == w[1..] + rest;
      SpanOf(p, w[1..], rest);
    }
  }

  lemma Skip(w: string, rest: string)
    ensures (w + rest)[|w|..] == rest && (w + rest)[..|w|] == w
  {
  }

  lemma NumeralIsNotSpace(a: string, tail: string)
    requires IsNumeral(a)
    ensures !StartsWith(IsSpace, a + tail)
  {
    assert (a + tail)[0] == a[0];
  }

  lemma MatchNumberOf(w: string, a: string, tail: string)
    requires All(IsSpace, w) && IsNumeral(a) && !StartsWith(IsDigit, tail)
    ensures MatchNumber(w + (a + tail)) == Some(Match(a, |w| + |a| + Span(IsSpace, tail)))
  {
    hide IsSpace, IsDigit, Span, All, StartsWith;
    NumeralIsNotSpace(a, tail);
    SpanOf(IsSpace, w, a + tail);
    SpanOf(IsDigit, a, tail);
    Skip(w, a + tail);
    Skip(a, tail);
    var t := w + (a + tail);
    assert t[|w|..|w| + |a|] == t[|w|..][..|a|];
    assert t[|w| + |a|..] == t[|w|..][|a|..];
  }

  lemma MatchOperatorOf(w: string, op: char, tail: string)
    requires All(IsSpace, w) && IsOperator(op)
    ensures MatchOperator(w + ([op] + tail)) == Some(Match([op], |w| + 1 + Span(IsSpace, tail)))
  {
    hide Span, All;
    assert ([op] + tail)[0] == op;
    SpanOf(IsSpace, w, [op] + tail);
    Skip(w, [op] + tail);
    Skip([op], tail);
    var t := w + ([op] + tail);
    assert t[|w|..|w| + 1] == t[|w|..][..1];
    assert t[|w| + 1..] == t[|w|..][1..];
  }

  // what is left of a line after each match

  function AfterOperator(l: Line): string {
    l.w2 + (l.b + l.rest)
  }

  function AfterNumber(l: Line): string {
    l.w1 + ([l.op] + AfterOperator(l))
  }

  lemma TextNested(l: Line)
    ensures Text(l) == l.w0 + (l.a + AfterNumber(l))
  {
  }

  lemma SpansOf(l: Line)
    requires WellFormed(l)
    ensures Span(IsSpace, AfterNumber(l)) == |l.w1| && !StartsWith(IsDigit, AfterNumber(l))
    ensures Span(IsSpace, AfterOperator(l)) == |l.w2|
  {
    hide Span, All;
    assert ([l.op] + AfterOperator(l))[0] == l.op;
    SpanOf(IsSpace, l.w1, [l.op] + AfterOperator(l));
    NumeralIsNotSpace(l.b, l.rest);
    SpanOf(IsSpace, l.w2, l.b + l.rest);
    assert AfterNumber(l)[0] == if l.w1 == "" then l.op else l.w1[0];
    if l.w1 != "" {
      SpaceIsNotDigit(l.w1);
    }
  }

  lemma SpaceIsNotDigit(w: string)
    requires All(IsSpace, w) && w != ""
    ensures !IsDigit(w[0])
  {
  }

  /** The composition runs the three parsers one behind the other. */
  lemma ExpressionRuns(s: string)
    ensures Expression()(s, 0, []) ==
            match Number(s, 0, [])
            case Fail(error) => Fail(error)
            case Ok((i, ts)) =>
              match Operator(s, i, ts)
              case Fail(error) => Fail(error)
              case Ok((j, ts2)) => Number(s, j, ts2)
  {
    hide Number, Operator;
  }

  /** Every line of that shape is accepted, and gives its three tokens. */
  lemma LineIsAccepted(l: Line)
    requires WellFormed(l)
    ensures Expression()(Text(l), 0, []).Ok?
    ensures Expression()(Text(l), 0, []).value.1 == Tokens(l)
  {
    hide Expression, From, MatchNumber, MatchOperator, WellFormed, Text, Span;
    ExpressionRuns(Text(l));
    LineMatches(l);
  }

  lemma LineMatches(l: Line)
    requires WellFormed(l)
    ensures var s, i := Text(l), |l.w0| + |l.a| + |l.w1|;
      MatchNumber(From(s, 0)) == Some(Match(l.a, i)) &&
      MatchOperator(From(s, i)) == Some(Match([l.op], 1 + |l.w2|)) &&
      MatchNumber(From(s, i + 1 + |l.w2|)) == Some(Match(l.b, |l.b| + Span(IsSpace, l.rest)))
  {
    hide IsSpace, IsDigit, IsOperator, Span, StartsWith, MatchNumber, MatchOperator;
    var s, i := Text(l), |l.w0| + |l.a| + |l.w1|;
    TextNested(l);
    SpansOf(l);
    MatchNumberOf(l.w0, l.a, AfterNumber(l));
    assert s[0..] == s;
    Positions(l);
    MatchOperatorOf("", l.op, AfterOperator(l));
    assert "" + ([l.op] + AfterOperator(l)) == [l.op] + AfterOperator(l);
    MatchNumberOf("", l.b, l.rest);
    assert "" + (l.b + l.rest) == l.b + l.rest;
  }

  lemma TextSplit(l: Line)
    ensures Text(l) == (l.w0 + l.a + l.w1) + ([l.op] + AfterOperator(l))
    ensures Text(l) == (l.w0 + l.a + l.w1 + [l.op] + l.w2) + (l.b + l.rest)
  {
  }

  lemma Positions(l: Line)
    ensures var s, i := Text(l), |l.w0| + |l.a| + |l.w1|;
      From(s, i) == [l.op] + AfterOperator(l) && From(s, i + 1 + |l.w2|) == l.b + l.rest
  {
    hide Text, AfterOperator;
    TextSplit(l);
    Skip(l.w0 + l.a + l.w1, [l.op] + AfterOperator(l));
    Skip(l.w0 + l.a + l.w1 + [l.op] + l.w2, l.b + l.rest);
  }

  /** And nothing else is: an accepted line has that shape. */
  lemma AcceptedIsLine(s: string) returns (l: Line)
    requires Expression()(s, 0, []).Ok?
    ensures WellFormed(l) && s == Text(l) && Expression()(s, 0, []).value.1 == Tokens(l)
  {
    hide Expression, From, MatchNumber, MatchOperator, WellFormed, Text;
    ExpressionRuns(s);
    var i := MatchNumber(From(s, 0)).value.end;
    var j := i + MatchOperator(From(s, i)).value.end;
    l := LineOf(s, i, j);
    LineIsAccepted(l);
  }

  lemma Front(t: string, j: nat, n: nat)
    requires j + n <= |t|
    ensures t[j..][..n] == t[j..j + n] && t[j..][n..] == t[j + n..] && t[j..] == t[j..j + n] + t[j + n..]
  {
  }

  lemma NumberPieces(t: string) returns (a: nat, n: nat, c: nat)
    requires MatchNumber(t).Some?
    ensures a + n + c <= |t| && MatchNumber(t) == Some(Match(t[a..a + n], a + n + c))
    ensures All(IsSpace, t[..a]) && IsNumeral(t[a..a + n]) && All(IsSpace, t[a + n..a + n + c])
    ensures !StartsWith(IsDigit, t[a + n..])
  {
    hide IsSpace, IsDigit, All, StartsWith, Span;
    a := Span(IsSpace, t);
    n := Span(IsDigit, t[a..]);
    c := Span(IsSpace, t[a + n..]);
    Front(t, a, n);
    Front(t, a + n, c);
  }

  lemma FourPieces(t: string, a: nat, n: nat, c: nat)
    requires a + n + c <= |t|
    ensures t == t[..a] + (t[a..a + n] + (t[a + n..a + n + c] + t[a + n + c..]))
    ensures t[a + n..a + n + c] + t[a + n + c..] == t[a + n..]
  {
  }

  lemma NumberParts(t: string) returns (w: string, v: string, rest: string)
    requires MatchNumber(t).Some?
    ensures var m := MatchNumber(t).value;
      rest == From(t, m.end) && t == w + (m.group + (v + rest)) && All(IsSpace, w) && IsNumeral(m.group) &&
      All(IsSpace, v) && !StartsWith(IsDigit, v + rest)
  {
    hide MatchNumber, IsSpace, IsDigit, All, StartsWith, IsNumeral;
    var a, n, c := NumberPieces(t);
    FourPieces(t, a, n, c);
    w, v, rest := t[..a], t[a + n..a + n + c], t[a + n + c..];
  }

  lemma OperatorParts(t: string) returns (w: string, op: char, v: string, rest: string)
    requires MatchOperator(t).Some?
    ensures var m := MatchOperator(t).value;
      rest == From(t, m.end) && m.group == [op] && t == w + ([op] + (v + rest)) &&
      All(IsSpace, w) && IsOperator(op) && All(IsSpace, v)
  {
    hide IsSpace, IsOperator, All, StartsWith, Span;
    var a := Span(IsSpace, t);
    var tail := t[a + 1..];
    var c := Span(IsSpace, tail);
    w, op, v, rest := t[..a], t[a], tail[..c], tail[c..];
    Around(t, a);
    assert v + rest == tail;
    assert rest == t[a + 1 + c..];
  }

  lemma Around(t: string, a: nat)
    requires a < |t|
    ensures t == t[..a] + ([t[a]] + t[a + 1..]) && t[a..a + 1] == [t[a]]
  {
  }

  lemma AllJoined(p: char -> bool, v: string, w: string)
    requires All(p, v) && All(p, w)
    ensures All(p, v + w)
  {
  }

  lemma JoinParts(w0: string, a: string, v0: string, v1: string, op: string,
                  w2: string, v2: string, b: string, rest: string)
    ensures w0 + (a + (v0 + (v1 + (op + (w2 + (v2 + (b + rest))))))) == w0 + a + (v0 + v1) + op + (w2 + v2) + b + rest
  {
  }

  lemma LineOf(s: string, i: nat, j: nat) returns (l: Line)
    requires MatchNumber(From(s, 0)).Some? && i == MatchNumber(From(s, 0)).value.end
    requires MatchOperator(From(s, i)).Some? && j == i + MatchOperator(From(s, i)).value.end
    requires MatchNumber(From(s, j)).Some?
    ensures WellFormed(l) && s == Text(l)
  {
    hide IsSpace, IsDigit, IsOperator, All, StartsWith, MatchNumber, MatchOperator, From;
    var w0, v0, s1 := NumberParts(From(s, 0));
    FromFrom(s, 0, i);
    var v1, op, w2, s2 := OperatorParts(From(s, i));
    FromFrom(s, i, j - i);
    var v2, v3, s3 := NumberParts(From(s, j));
    var a, b := MatchNumber(From(s, 0)).value.group, MatchNumber(From(s, j)).value.group;
    AllJoined(IsSpace, v0, v1);
    AllJoined(IsSpace, w2, v2);
    JoinParts(w0, a, v0, v1, [op], w2, v2, b, v3 + s3);
    l := Line(w0, a, v0 + v1, op, w2 + v2, b, v3 + s3);
  }

  lemma FromFrom(s: string, i: nat, k: nat)
    ensures From(From(s, i), k) == From(s, i + k) && From(s, 0) == s
  {
  }

  // ---- from a line to a request ----

  /** An example with a blank on either side of the operator. */
  const ONE_PLUS_TWO := Line("", "1", " ", '+', " ", "2", "")

  lemma OnePlusTwo()
    ensures WellFormed(ONE_PLUS_TWO) && Text(ONE_PLUS_TWO) == "1 + 2"
    ensures Decimal(ONE_PLUS_TWO.a) == 1 && Decimal(ONE_PLUS_TWO.b) == 2
  {
    DecimalOfDigit('1');
    DecimalOfDigit('2');
  }

  function DigitValue(c: char): (n: nat)
    requires IsDigit(c)
    ensures n < 10
  {
    c as int - '0' as int
  }

  /** int() on a numeral */
  function Decimal(t: string): nat
    requires All(IsDigit, t)
  {
    if t == "" then 0 else 10 * Decimal(t[..|t| - 1]) + DigitValue(t[|t| - 1])
  }

  function DigitChar(n: nat): char
    requires n < 10
  {
    ('0' as int + n) as char
  }

  function Digits(n: nat): (t: string)
    ensures IsNumeral(t)
  {
    if n < 10 then [DigitChar(n)] else Digits(n / 10) + [DigitChar(n % 10)]
  }

  /** Every number has a numeral. */
  lemma {:induction false} DecimalOfDigits(n: nat)
    ensures Decimal(Digits(n)) == n
  {
    if n < 10 {
      assert Decimal("") == 0;
    } else {
      DecimalOfDigits(n / 10);
      assert Digits(n)[..|Digits(n)| - 1] == Digits(n / 10);
    }
  }

  function PowerOfTen(n: nat): nat {
    if n == 0 then 1 else 10 * PowerOfTen(n - 1)
  }

  /** A digit counts as its distance from '0'. */
  lemma DecimalOfDigit(c: char)
    requires IsDigit(c)
    ensures Decimal([c]) == c as int - 0x30
  {
    assert [c][..0] == "";
  }

  lemma DecimalNext(t: string, c: char)
    requires All(IsDigit, t) && IsDigit(c)
    ensures All(IsDigit, t + [c]) && Decimal(t + [c]) == 10 * Decimal(t) + DigitValue(c)
  {
    assert (t + [c])[..|t|] == t;
  }

  /** Numerals are positional: what stands in front counts ten times more for each digit behind. */
  lemma {:induction false} DecimalIsPositional(a: string, b: string)
    requires All(IsDigit, a) && All(IsDigit, b)
    ensures All(IsDigit, a + b) && Decimal(a + b) == Decimal(a) * PowerOfTen(|b|) + Decimal(b)
    decreases |b|
  {
    hide IsDigit, DigitValue;
    if b == "" {
      assert a + b == a;
    } else {
      hide Decimal;
      var n := |b| - 1;
      DecimalIsPositional(a, b[..n]);
      DecimalNext(b[..n], b[n]);
      DecimalNext(a + b[..n], b[n]);
      assert a + b == a + b[..n] + [b[n]] && b == b[..n] + [b[n]];
      TenTimes(Decimal(a), PowerOfTen(n));
    }
  }

  lemma TenTimes(x: nat, y: nat)
    ensures 10 * (x * y) == x * (10 * y)
  {
  }

  function OperatorByte(c: char): bv8
    requires IsOperator(c)
  {
    if c == '+' then 0x2B else if c == '-' then 0x2D else if c == '&' then 0x26 else if c == '|' then 0x7C else 0x5E
  }

  const ClientEthernet := Ethernet(0x1000_0002_AABB, 0x1000_0001_AABB, 0x1234)

  predicate ExpressionTokens(ts: seq<Token>) {
    |ts| == 3 && IsNumeral(ts[0].value) && |ts[1].value| == 1 && IsOperator(ts[1].value[0]) && IsNumeral(ts[2].value)
  }

  lemma AcceptedTokens(s: string)
    ensures Expression()(s, 0, []).Ok? ==> ExpressionTokens(Expression()(s, 0, []).value.1)
  {
    hide Expression, IsSpace, IsDigit, IsOperator, All, StartsWith;
    if Expression()(s, 0, []).Ok? {
      var l := AcceptedIsLine(s);
    }
  }

  /** A number in a 32-bit field. */
  function Field32(n: nat): bv32
    requires n < 0x1_0000_0000
  {
    n as bv32
  }

  /** The header with the operands in its 32-bit fields, and the operand check of IntField. */
  function RequestHeader(a: string, op: char, b: string): Result<P4calc>
    requires IsNumeral(a) && IsOperator(op) && IsNumeral(b)
  {
    var x, y := Decimal(a), Decimal(b);
    if x >= 0x1_0000_0000 || y >= 0x1_0000_0000 then Fail(OperandTooLarge)
    else Ok(P4calc(0x50, 0x34, 0x01, OperatorByte(op), Field32(x), Field32(y), 0))
  }

  /** Ethernet, calculator header, and one blank of payload. */
  function RequestBytes(h: P4calc): seq<bv8> {
    EthernetBytes(ClientEthernet) + P4calcBytes(h) + [0x20]
  }

  function RequestFor(s: string): Result<seq<bv8>> {
    AcceptedTokens(s);
    match Expression()(s, 0, [])
    case Fail(error) => Fail(error)
    case Ok((_, ts)) =>
      match RequestHeader(ts[0].value, ts[1].value[0], ts[2].value)
      case Fail(error) => Fail(error)
      case Ok(h) => Ok(RequestBytes(h))
  }

  /** Exactly when which exception is raised: the one declared for operators never is. */
  lemma RaisedExactly(s: string)
    ensures var r, number := RequestFor(s), MatchNumber(From(s, 0));
      r == Fail(EXPECTED_OPERATOR) <==> number.Some? && MatchOperator(From(s, number.value.end)).None?
    ensures RequestFor(s).Fail? ==> !RequestFor(s).error.OpParseError?
  {
    hide Expression, IsDigit, IsOperator, IsSpace, All, StartsWith, MatchNumber, MatchOperator, From, RequestBytes,
      Field32;
    AcceptedTokens(s);
    ExpressionRuns(s);
  }

  method Request(s: string) returns (r: Result<seq<bv8>>)
    ensures r == RequestFor(s)
  {
    hide Expression, IsDigit, IsOperator, All, RequestHeader, RequestBytes;
    AcceptedTokens(s);
    var tokens := ParseLine(s);
    if tokens.Fail? {
      return Fail(tokens.error);
    }
    var ts := tokens.value;
    var h := RequestHeader(ts[0].value, ts[1].value[0], ts[2].value);
    if h.Fail? {
      return Fail(h.error);
    }
    return Ok(RequestBytes(h.value));
  }
}
