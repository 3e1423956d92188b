// crc16_update: the bitwise register with the polynomial as a parameter.

module Crc16 {
  import opened Iteration
  import opened CheckInput

  function Step(poly: bv16, r: bv16): bv16 {
    if r & 1 == 1 then (r >> 1) ^ poly else r >> 1
  }

  function Xor(a: bv16, b: bv16): bv16 {
    a ^ b
  }

  function Stepper(poly: bv16): bv16 -> bv16 {
    r => Step(poly, r)
  }

  function Steps(poly: bv16, n: nat, r: bv16): bv16 {
    Iterate(n, Stepper(poly), r)
  }

  function Feed(poly: bv16, r: bv16, d: bv8): bv16 {
    Steps(poly, 8, Xor(r, d as bv16))
  }

  function Feeder(poly: bv16): (bv16, bv8) -> bv16 {
    (r, d) => Feed(poly, r, d)
  }

  /** The reference register after consuming `data` in order. */
  function Crc(poly: bv16, r: bv16, data: seq<bv8>): bv16 {
    Fold(Feeder(poly), r, data)
  }

  lemma CrcSnoc(poly: bv16, r: bv16, data: seq<bv8>, k: nat)
    requires k < |data|
    ensures Crc(poly, r, data[..k + 1]) == Feed(poly, Crc(poly, r, data[..k]), data[k])
  {
    hide Feed;
    assert data[..k + 1] == data[..k] + [data[k]];
    FoldConcat(Feeder(poly), r, data[..k], [data[k]]);
    var s := Crc(poly, r, data[..k]);
    assert Crc(poly, s, [data[k]]) == Feed(poly, s, data[k]);
  }

  lemma CrcEmpty(poly: bv16, r: bv16)
    ensures Crc(poly, r, []) == r
  {
  }

  /** The inner loop: one byte into the low end, then eight conditional shifts. */
  method FeedByte(r0: bv16, d: bv8, poly: bv16) returns (r: bv16)
    ensures r == Feed(poly, r0, d)
  {
    hide Xor, Step;
    r := Xor(r0, d as bv16);
    for bit := 0 to 8
      invariant r == Steps(poly, bit, Xor(r0, d as bv16))
    {
      IterateSplit(bit, 1, Stepper(poly), Xor(r0, d as bv16));
      r := Step(poly, r);
    }
  }

  method Crc16Update(reg: bv16, data: seq<bv8>, poly: bv16) returns (r: bv16)
    requires |data| < 0x1_0000
    ensures r == Crc(poly, reg, Consumed(data))
  {
    hide Feed, Crc;
    var size := |data|;
    var at := if size <= 8 then size - 1 else 0;
    r := reg;
    CrcEmpty(poly, reg);
    for i := 0 to size
      invariant at == if size <= 8 then size - 1 - i else i
      invariant r == Crc(poly, reg, Consumed(data)[..i])
    {
      CrcSnoc(poly, reg, Consumed(data), i);
      r := FeedByte(r, data[at], poly);
      at := if size <= 8 then at - 1 else at + 1;
    }
    assert Consumed(data)[..size] == Consumed(data);
  }

  // ---- with bit 15 of the polynomial set, the register can be run backwards ----

  function Unstep(poly: bv16, r: bv16): bv16 {
    if r >> 15 == 1 then ((r ^ poly) << 1) | 1 else r << 1
  }

  function Unstepper(poly: bv16): bv16 -> bv16 {
    r => Unstep(poly, r)
  }

  function Unfeed(poly: bv16, r: bv16, d: bv8): bv16 {
    Xor(Iterate(8, Unstepper(poly), r), d as bv16)
  }

  function Unfeeder(poly: bv16): (bv16, bv8) -> bv16 {
    (r, d) => Unfeed(poly, r, d)
  }

  lemma EdgeBits(r: bv16)
    ensures (r & 1 == 0 || r & 1 == 1) && (r >> 15 == 0 || r >> 15 == 1)
  {
  }

  lemma UnstepOdd(poly: bv16, r: bv16)
    requires poly >> 15 == 1 && r & 1 == 1
    ensures Unstep(poly, Step(poly, r)) == r
  {
  }

  lemma UnstepEven(poly: bv16, r: bv16)
    requires r & 1 == 0
    ensures Unstep(poly, Step(poly, r)) == r
  {
  }

  lemma StepHigh(poly: bv16, r: bv16)
    requires poly >> 15 == 1 && r >> 15 == 1
    ensures Step(poly, Unstep(poly, r)) == r
  {
  }

  lemma StepLow(poly: bv16, r: bv16)
    requires r >> 15 == 0
    ensures Step(poly, Unstep(poly, r)) == r
  {
  }

  lemma StepBijective(poly: bv16, r: bv16)
    requires poly >> 15 == 1
    ensures Unstep(poly, Step(poly, r)) == r && Step(poly, Unstep(poly, r)) == r
  {
    EdgeBits(r);
    if r & 1 == 1 {
      UnstepOdd(poly, r);
    } else {
      UnstepEven(poly, r);
    }
    if r >> 15 == 1 {
      StepHigh(poly, r);
    } else {
      StepLow(poly, r);
    }
  }

  lemma StepsBijective(poly: bv16, n: nat, r: bv16)
    requires poly >> 15 == 1
    ensures Iterate(n, Unstepper(poly), Steps(poly, n, r)) == r
    ensures Steps(poly, n, Iterate(n, Unstepper(poly), r)) == r
  {
    forall x
      ensures Unstep(poly, Step(poly, x)) == x && Step(poly, Unstep(poly, x)) == x
    {
      StepBijective(poly, x);
    }
    hide Step, Unstep;
    IterateInverse(n, Stepper(poly), Unstepper(poly), r);
    IterateInverse(n, Unstepper(poly), Stepper(poly), r);
  }

  lemma XorTwice(a: bv16, b: bv16)
    ensures Xor(Xor(a, b), b) == a
  {
  }

  lemma FeedBijective(poly: bv16, r: bv16, d: bv8)
    requires poly >> 15 == 1
    ensures Unfeed(poly, Feed(poly, r, d), d) == r && Feed(poly, Unfeed(poly, r, d), d) == r
  {
    hide Xor;
    var w := d as bv16;
    StepsBijective(poly, 8, Xor(r, w));
    StepsBijective(poly, 8, r);
    XorTwice(r, w);
    XorTwice(Iterate(8, Unstepper(poly), r), w);
  }

  lemma CrcBijective(poly: bv16, r: bv16, data: seq<bv8>)
    requires poly >> 15 == 1
    ensures Unfold(Unfeeder(poly), Crc(poly, r, data), data) == r
    ensures Crc(poly, Unfold(Unfeeder(poly), r, data), data) == r
  {
    hide Feed, Unfeed;
    forall x, d
      ensures Unfeed(poly, Feed(poly, x, d), d) == x && Feed(poly, Unfeed(poly, x, d), d) == x
    {
      FeedBijective(poly, x, d);
    }
    FoldBijective(Feeder(poly), Unfeeder(poly), r, data);
  }

  // ---- two bytes enter as one word ----

  lemma BothOdd(poly: bv16, a: bv16, b: bv16)
    requires a & 1 == 1 && b & 1 == 1
    ensures Step(poly, a ^ b) == Step(poly, a) ^ Step(poly, b)
  {
  }

  lemma OneOdd(poly: bv16, a: bv16, b: bv16)
    requires a & 1 == 1 && b & 1 == 0
    ensures Step(poly, a ^ b) == Step(poly, a) ^ Step(poly, b)
    ensures Step(poly, b ^ a) == Step(poly, b) ^ Step(poly, a)
  {
  }

  lemma NoneOdd(poly: bv16, a: bv16, b: bv16)
    requires a & 1 == 0 && b & 1 == 0
    ensures Step(poly, a ^ b) == Step(poly, a) ^ Step(poly, b)
  {
  }

  lemma StepLinear(poly: bv16, a: bv16, b: bv16)
    ensures Step(poly, Xor(a, b)) == Xor(Step(poly, a), Step(poly, b))
  {
    EdgeBits(a);
    EdgeBits(b);
    if a & 1 == 1 {
      if b & 1 == 1 {
        BothOdd(poly, a, b);
      } else {
        OneOdd(poly, a, b);
      }
    } else if b & 1 == 1 {
      OneOdd(poly, b, a);
    } else {
      NoneOdd(poly, a, b);
    }
  }

  lemma StepsLinear(poly: bv16, n: nat, a: bv16, b: bv16)
    ensures Steps(poly, n, Xor(a, b)) == Xor(Steps(poly, n, a), Steps(poly, n, b))
  {
    hide Step, Xor;
    forall x, y
      ensures Step(poly, Xor(x, y)) == Xor(Step(poly, x), Step(poly, y))
    {
      StepLinear(poly, x, y);
    }
    IterateHomomorphism(n, Stepper(poly), Xor, a, b);
  }

  function EightTimes(poly: bv16, r: bv16): bv16 {
    Step(poly, Step(poly, Step(poly, Step(poly, Step(poly, Step(poly, Step(poly, Step(poly, r))))))))
  }

  lemma StepsAreEightTimes(poly: bv16, r: bv16)
    ensures Steps(poly, 8, r) == EightTimes(poly, r)
  {
    hide Step;
    Iterate8(Stepper(poly), r);
  }

  lemma EightTimesLowClear(poly: bv16, r: bv16)
    requires r & 0xFF == 0
    ensures EightTimes(poly, r) == r >> 8
  {
  }

  lemma StepsLowClear(poly: bv16, r: bv16)
    requires r & 0xFF == 0
    ensures Steps(poly, 8, r) == r >> 8
  {
    hide Steps, EightTimes;
    StepsAreEightTimes(poly, r);
    EightTimesLowClear(poly, r);
  }

  lemma HighByte(d: bv8)
    ensures ((d as bv16) << 8) & 0xFF == 0 && ((d as bv16) << 8) >> 8 == d as bv16
  {
  }

  /** Two bytes as a little-endian word. */
  function Word(a: bv8, b: bv8): bv16 {
    (a as bv16) | ((b as bv16) << 8)
  }

  lemma WordAsXor(r: bv16, a: bv8, b: bv8)
    ensures Xor(r, Word(a, b)) == Xor(Xor(r, a as bv16), (b as bv16) << 8)
  {
  }

  lemma CrcOfTwo(poly: bv16, r: bv16, x: seq<bv8>)
    requires |x| == 2
    ensures Crc(poly, r, x) == Steps(poly, 16, Xor(r, Word(x[0], x[1])))
  {
    hide Xor, Word;
    var a, b := x[0] as bv16, x[1] as bv16;
    var s := Xor(r, a);
    FoldShort(Feeder(poly), r, x);
    HighByte(x[1]);
    StepsLowClear(poly, b << 8);
    StepsLinear(poly, 8, s, b << 8);
    IterateSplit(8, 8, Stepper(poly), Xor(s, b << 8));
    WordAsXor(r, x[0], x[1]);
  }

  lemma CrcOfOne(poly: bv16, r: bv16, x: seq<bv8>)
    requires |x| == 1
    ensures Crc(poly, r, x) == Steps(poly, 8, Xor(r, Word(x[0], 0)))
  {
    hide Xor, Word;
    FoldShort(Feeder(poly), r, x);
    ZeroHigh(x[0]);
  }

  lemma ZeroHigh(d: bv8)
    ensures Word(d, 0) == d as bv16
  {
  }

  // ---- burst detection, exactly when bit 15 of the polynomial is set ----

  lemma SameWord(r: bv16, a: bv8, b: bv8, c: bv8, d: bv8)
    requires Xor(r, Word(a, b)) == Xor(r, Word(c, d))
    ensures a == c && b == d
  {
  }

  lemma WindowDetected(poly: bv16, s: bv16, x: seq<bv8>, y: seq<bv8>)
    requires poly >> 15 == 1
    requires |x| == |y| <= 2 && x != y
    ensures Crc(poly, s, x) != Crc(poly, s, y)
  {
    hide Xor, Word;
    if Crc(poly, s, x) == Crc(poly, s, y) {
      var x1, y1 := if |x| == 2 then x[1] else 0, if |y| == 2 then y[1] else 0;
      if |x| == 2 {
        CrcOfTwo(poly, s, x);
        CrcOfTwo(poly, s, y);
      } else {
        CrcOfOne(poly, s, x);
        CrcOfOne(poly, s, y);
      }
      StepsBijective(poly, 8 * |x|, Xor(s, Word(x[0], x1)));
      StepsBijective(poly, 8 * |x|, Xor(s, Word(y[0], y1)));
      SameWord(s, x[0], x1, y[0], y1);
    }
  }

  lemma CrcThreeParts(poly: bv16, r: bv16, pre: seq<bv8>, x: seq<bv8>, suf: seq<bv8>)
    ensures Crc(poly, r, pre + x + suf) == Crc(poly, Crc(poly, Crc(poly, r, pre), x), suf)
  {
    FoldConcat(Feeder(poly), r, pre + x, suf);
    FoldConcat(Feeder(poly), r, pre, x);
  }

  lemma BurstDetected(poly: bv16, r: bv16, a: seq<bv8>, b: seq<bv8>, i: nat)
    requires poly >> 15 == 1
    requires DifferWithin(a, b, i, 2) && a != b
    ensures Crc(poly, r, a) != Crc(poly, r, b)
  {
    hide Crc;
    assert i < |a|;
    var k := if i + 2 <= |a| then i + 2 else |a|;
    assert a[..i] == b[..i] && a[k..] == b[k..];
    assert a == a[..i] + a[i..k] + a[k..] && b == b[..i] + b[i..k] + b[k..];
    CrcThreeParts(poly, r, a[..i], a[i..k], a[k..]);
    CrcThreeParts(poly, r, b[..i], b[i..k], b[k..]);
    var s := Crc(poly, r, a[..i]);
    WindowDetected(poly, s, a[i..k], b[i..k]);
    CrcBijective(poly, Crc(poly, s, a[i..k]), a[k..]);
    CrcBijective(poly, Crc(poly, s, b[i..k]), a[k..]);
  }

  ghost predicate DetectsBurst(poly: bv16, reg: bv16, a: seq<bv8>, b: seq<bv8>, i: nat) {
    DifferWithin(a, b, i, 2) && a != b ==> Crc(poly, reg, Consumed(a)) != Crc(poly, reg, Consumed(b))
  }

  /** Without bit 15, the words 1 and 2 * poly leave the register equal after one shift. */
  lemma Collision(poly: bv16)
    requires poly >> 15 == 0
    ensures Step(poly, 1) == Step(poly, poly << 1) && poly << 1 != 1
  {
  }

  lemma StepsCollide(poly: bv16, n: nat)
    requires poly >> 15 == 0 && n > 0
    ensures Steps(poly, n, 1) == Steps(poly, n, poly << 1)
  {
    Collision(poly);
    hide Step;
  }

  /** The two bytes that bring the register `r` to the word `w`. */
  function BytesTo(r: bv16, w: bv16): seq<bv8> {
    [((r ^ w) & 0xFF) as bv8, ((r ^ w) >> 8) as bv8]
  }

  lemma BytesToWord(r: bv16, w: bv16)
    ensures Xor(r, Word(BytesTo(r, w)[0], BytesTo(r, w)[1])) == w
  {
  }

  lemma BurstMissed(poly: bv16, reg: bv16) returns (a: seq<bv8>, b: seq<bv8>)
    requires poly >> 15 == 0
    ensures !DetectsBurst(poly, reg, a, b, 0)
  {
    var x, y := BytesTo(reg, 1), BytesTo(reg, poly << 1);
    BytesToWord(reg, 1);
    BytesToWord(reg, poly << 1);
    Collision(poly);
    hide Step, Xor, Word, BytesTo;
    assert x != y;
    CrcOfTwo(poly, reg, x);
    CrcOfTwo(poly, reg, y);
    StepsCollide(poly, 16);
    a, b := [x[1], x[0]], [y[1], y[0]];
    assert Consumed(a) == x && Consumed(b) == y;
  }

  /** Two-byte bursts are detected for all data exactly when bit 15 of poly is set. */
  lemma DetectsExactly(poly: bv16)
    ensures (forall reg, a, b, i :: DetectsBurst(poly, reg, a, b, i)) <==> poly >> 15 == 1
  {
    EdgeBits(poly);
    if poly >> 15 == 1 {
      forall reg, a, b, i | DifferWithin(a, b, i, 2) && a != b
        ensures Crc(poly, reg, Consumed(a)) != Crc(poly, reg, Consumed(b))
      {
        var k := ConsumedBurst(a, b, i, 2);
        BurstDetected(poly, reg, Consumed(a), Consumed(b), k);
      }
    } else {
      var a, b := BurstMissed(poly, 0);
    }
  }

  /** For nonempty data the update is a bijection of registers exactly when bit 15 of poly is set. */
  lemma BijectiveExactly(poly: bv16, data: seq<bv8>)
    requires data != []
    ensures (forall r, s :: Crc(poly, r, data) == Crc(poly, s, data) ==> r == s) <==> poly >> 15 == 1
  {
    EdgeBits(poly);
    if poly >> 15 == 1 {
      forall r, s | Crc(poly, r, data) == Crc(poly, s, data)
        ensures r == s
      {
        CrcBijective(poly, r, data);
        CrcBijective(poly, s, data);
      }
    } else {
      var d := data[0] as bv16;
      var r, s := Xor(1, d), Xor(poly << 1, d);
      XorTwice(1, d);
      XorTwice(poly << 1, d);
      StepsCollide(poly, 8);
      Collision(poly);
      hide Xor, Step;
      assert Feed(poly, r, data[0]) == Feed(poly, s, data[0]);
      assert Crc(poly, r, data) == Crc(poly, s, data);
    }
  }

  // ---- the check value ----

  lemma FeedEvaluated(poly: bv16, r: bv16, d: bv8, next: bv16)
    requires EightTimes(poly, Xor(r, d as bv16)) == next
    ensures Feed(poly, r, d) == next
  {
    StepsAreEightTimes(poly, Xor(r, d as bv16));
  }

  /** The register after each character of the check input. */
  lemma CheckRegisters()
    ensures Feed(0xA001, 0x0000, 0x31) == 0xD4C1
    ensures Feed(0xA001, 0xD4C1, 0x32) == 0x4594
    ensures Feed(0xA001, 0x4594, 0x33) == 0xBA04
    ensures Feed(0xA001, 0xBA04, 0x34) == 0x14BA
    ensures Feed(0xA001, 0x14BA, 0x35) == 0xA455
    ensures Feed(0xA001, 0xA455, 0x36) == 0x29E4
    ensures Feed(0xA001, 0x29E4, 0x37) == 0x9D68
    ensures Feed(0xA001, 0x9D68, 0x38) == 0x3C9D
    ensures Feed(0xA001, 0x3C9D, 0x39) == 0xBB3D
  {
    FeedEvaluated(0xA001, 0x0000, 0x31, 0xD4C1);
    FeedEvaluated(0xA001, 0xD4C1, 0x32, 0x4594);
    FeedEvaluated(0xA001, 0x4594, 0x33, 0xBA04);
    FeedEvaluated(0xA001, 0xBA04, 0x34, 0x14BA);
    FeedEvaluated(0xA001, 0x14BA, 0x35, 0xA455);
    FeedEvaluated(0xA001, 0xA455, 0x36, 0x29E4);
    FeedEvaluated(0xA001, 0x29E4, 0x37, 0x9D68);
    FeedEvaluated(0xA001, 0x9D68, 0x38, 0x3C9D);
    FeedEvaluated(0xA001, 0x3C9D, 0x39, 0xBB3D);
  }

  lemma CrcOfNine(poly: bv16, r: bv16, x: seq<bv8>)
    requires |x| == 9
    ensures var f := (s, d) => Feed(poly, s, d);
      var r4 := f(f(f(f(r, x[0]), x[1]), x[2]), x[3]);
      Crc(poly, r, x) == f(f(f(f(f(r4, x[4]), x[5]), x[6]), x[7]), x[8])
  {
    hide Feed, Crc;
    CrcEmpty(poly, r);
    CrcSnoc(poly, r, x, 8);
    CrcSnoc(poly, r, x, 7);
    CrcSnoc(poly, r, x, 6);
    CrcSnoc(poly, r, x, 5);
    CrcSnoc(poly, r, x, 4);
    CrcSnoc(poly, r, x, 3);
    CrcSnoc(poly, r, x, 2);
    CrcSnoc(poly, r, x, 1);
    CrcSnoc(poly, r, x, 0);
    assert x[..9] == x && x[..0] == [];
  }

  /** Started from zero with the reflected polynomial 0x8005, the update has the standard check
      value of CRC-16/ARC. */
  lemma CheckValue()
    ensures Crc(0xA001, 0, Consumed(CHECK_INPUT)) == 0xBB3D
  {
    hide Feed, Crc;
    CheckRegisters();
    assert Consumed(CHECK_INPUT) == CHECK_INPUT;
    CrcOfNine(0xA001, 0, CHECK_INPUT);
  }
}
