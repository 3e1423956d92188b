// The CRC-32 kernel every generated header carries: the bit-at-a-time register
// as the reference, and what the shift register guarantees.

/** The reflected CRC-32 register, one bit at a time (polynomial 0xEDB88320). */
module CrcSpec {
  import opened Iteration

  const POLY: bv32 := 0xEDB88320

  /** One shift of the register: the bit that falls out selects the polynomial. */
  function Step(r: bv32): bv32 {
    if r & 1 == 1 then (r >> 1) ^ POLY else r >> 1
  }

  function Xor(a: bv32, b: bv32): bv32 {
    a ^ b
  }

  function Steps(n: nat, r: bv32): bv32 {
    Iterate(n, Step, r)
  }

  /** A byte enters the low end of the register and is shifted out bit by bit. */
  function Feed(r: bv32, d: bv8): bv32 {
    Steps(8, Xor(r, d as bv32))
  }

  /** The reference CRC of section 8 of RFC 1952, without its two inversions. */
  function Crc(r: bv32, data: seq<bv8>): bv32 {
    Fold(Feed, r, data)
  }

  // ---- linearity over GF(2) ----

  lemma BothOdd(a: bv32, b: bv32)
    requires a & 1 == 1 && b & 1 == 1
    ensures Step(a ^ b) == Step(a) ^ Step(b)
  {
  }

  lemma OneOdd(a: bv32, b: bv32)
    requires a & 1 == 1 && b & 1 == 0
    ensures Step(a ^ b) == Step(a) ^ Step(b) && Step(b ^ a) == Step(b) ^ Step(a)
  {
  }

  lemma NoneOdd(a: bv32, b: bv32)
    requires a & 1 == 0 && b & 1 == 0
    ensures Step(a ^ b) == Step(a) ^ Step(b)
  {
  }

  lemma LowBit(a: bv32)
    ensures a & 1 == 0 || a & 1 == 1
  {
  }

  lemma StepLinear(a: bv32, b: bv32)
    ensures Step(Xor(a, b)) == Xor(Step(a), Step(b))
  {
    LowBit(a);
    LowBit(b);
    if a & 1 == 1 {
      if b & 1 == 1 {
        BothOdd(a, b);
      } else {
        OneOdd(a, b);
      }
    } else if b & 1 == 1 {
      OneOdd(b, a);
    } else {
      NoneOdd(a, b);
    }
  }

  lemma StepsLinear(n: nat, a: bv32, b: bv32)
    ensures Steps(n, Xor(a, b)) == Xor(Steps(n, a), Steps(n, b))
  {
    forall x, y
      ensures Step(Xor(x, y)) == Xor(Step(x), Step(y))
    {
      StepLinear(x, y);
    }
    IterateHomomorphism(n, Step, Xor, a, b);
  }

  lemma StepsSplit(m: nat, n: nat, r: bv32)
    ensures Steps(m + n, r) == Steps(n, Steps(m, r))
  {
    IterateSplit(m, n, Step, r);
  }

  // ---- the register update is a bijection ----

  /** Undoes one shift: bit 31 tells whether the polynomial was added. */
  function Unstep(r: bv32): bv32 {
    if r >> 31 == 1 then ((r ^ POLY) << 1) | 1 else r << 1
  }

  /** The register before the byte `d` was fed, given the register after it. */
  function Unfeed(r: bv32, d: bv8): bv32 {
    Xor(Iterate(8, Unstep, r), d as bv32)
  }

  lemma UnstepOdd(r: bv32)
    requires r & 1 == 1
    ensures Unstep(Step(r)) == r
  {
  }

  lemma UnstepEven(r: bv32)
    requires r & 1 == 0
    ensures Unstep(Step(r)) == r
  {
  }

  lemma HighBit(r: bv32)
    ensures r >> 31 == 0 || r >> 31 == 1
  {
  }

  lemma StepHigh(r: bv32)
    requires r >> 31 == 1
    ensures Step(Unstep(r)) == r
  {
  }

  lemma StepLow(r: bv32)
    requires r >> 31 == 0
    ensures Step(Unstep(r)) == r
  {
  }

  lemma StepBijective(r: bv32)
    ensures Unstep(Step(r)) == r && Step(Unstep(r)) == r
  {
    LowBit(r);
    HighBit(r);
    if r & 1 == 1 {
      UnstepOdd(r);
    } else {
      UnstepEven(r);
    }
    if r >> 31 == 1 {
      StepHigh(r);
    } else {
      StepLow(r);
    }
  }

  lemma StepsBijective(n: nat, r: bv32)
    ensures Iterate(n, Unstep, Steps(n, r)) == r && Steps(n, Iterate(n, Unstep, r)) == r
  {
    forall x
      ensures Unstep(Step(x)) == x && Step(Unstep(x)) == x
    {
      StepBijective(x);
    }
    IterateInverse(n, Step, Unstep, r);
    IterateInverse(n, Unstep, Step, r);
  }

  lemma XorTwice(a: bv32, b: bv32)
    ensures Xor(Xor(a, b), b) == a
  {
  }

  lemma FeedBijective(r: bv32, d: bv8)
    ensures Unfeed(Feed(r, d), d) == r && Feed(Unfeed(r, d), d) == r
  {
    var w := d as bv32;
    StepsBijective(8, Xor(r, w));
    StepsBijective(8, r);
    XorTwice(r, w);
    XorTwice(Iterate(8, Unstep, r), w);
  }

  /** For fixed data the update is a bijection of registers, with an explicit inverse. */
  lemma CrcBijective(r: bv32, data: seq<bv8>)
    ensures Unfold(Unfeed, Crc(r, data), data) == r
    ensures Crc(Unfold(Unfeed, r, data), data) == r
  {
    forall x, d
      ensures Unfeed(Feed(x, d), d) == x && Feed(Unfeed(x, d), d) == x
    {
      FeedBijective(x, d);
    }
    FoldBijective(Feed, Unfeed, r, data);
  }

  // ---- eight steps at a time ----

  function EightTimes(r: bv32): bv32 {
    Step(Step(Step(Step(Step(Step(Step(Step(r))))))))
  }

  lemma StepsAreEightTimes(r: bv32)
    ensures Steps(8, r) == EightTimes(r)
  {
    hide Step;
    Iterate8(Step, r);
  }

  /** Eight shifts of a register whose low byte is clear never add the polynomial. */
  lemma EightTimesLowClear(r: bv32)
    requires r & 0xFF == 0
    ensures EightTimes(r) == r >> 8
  {
  }

  /** Eight steps move whatever sits above the low byte down by one byte. */
  lemma StepsLowClear(r: bv32)
    requires r & 0xFF == 0
    ensures Steps(8, r) == r >> 8
  {
    hide Steps, EightTimes;
    StepsAreEightTimes(r);
    EightTimesLowClear(r);
  }

  lemma SplitLowByte(r: bv32)
    ensures Xor(r & 0xFF, r & 0xFFFFFF00) == r
    ensures (r & 0xFFFFFF00) & 0xFF == 0
    ensures (r & 0xFFFFFF00) >> 8 == r >> 8
  {
  }

  /** Eight steps as the table routine takes them: look up the low byte, shift the rest. */
  lemma StepsByLookup(r: bv32)
    ensures Steps(8, r) == Xor(Steps(8, r & 0xFF), r >> 8)
  {
    SplitLowByte(r);
    StepsLinear(8, r & 0xFF, r & 0xFFFFFF00);
    StepsLowClear(r & 0xFFFFFF00);
  }

  lemma UpByte(x: bv32)
    requires x >> 24 == 0
    ensures (x << 8) & 0xFF == 0 && (x << 8) >> 8 == x
  {
  }

  /** A value lifted by one byte needs eight steps to come down again. */
  lemma StepsLifted(n: nat, x: bv32)
    requires x >> 24 == 0
    ensures Steps(8 + n, x << 8) == Steps(n, x)
  {
    UpByte(x);
    StepsLowClear(x << 8);
    StepsSplit(8, n, x << 8);
  }

  // ---- up to four bytes as one little-endian word ----

  function PutLow(d: bv8, w: bv32): bv32 {
    Xor(d as bv32, w << 8)
  }

  function Low(w: bv32): bv8 {
    (w & 0xFF) as bv8
  }

  function Down(w: bv32): bv32 {
    w >> 8
  }

  predicate Fits(n: nat, w: bv32) {
    match n
    case 0 => w == 0
    case 1 => w >> 8 == 0
    case 2 => w >> 16 == 0
    case 3 => w >> 24 == 0
    case _ => true
  }

  /** At most four bytes as a little-endian word. */
  function Word(x: seq<bv8>): bv32
    requires |x| <= 4
  {
    Assemble(PutLow, 0, x)
  }

  lemma PutLowRoom(n: nat, d: bv8, w: bv32)
    requires n < 4 && Fits(n, w)
    ensures Fits(n + 1, PutLow(d, w))
  {
    if n == 0 {
      assert ((d as bv32) ^ (w << 8)) >> 8 == 0;
    } else if n == 1 {
      assert ((d as bv32) ^ (w << 8)) >> 16 == 0;
    } else if n == 2 {
      assert ((d as bv32) ^ (w << 8)) >> 24 == 0;
    }
  }

  lemma FitsShort(n: nat, w: bv32)
    requires n <= 3 && Fits(n, w)
    ensures w >> 24 == 0
  {
  }

  lemma LowOfPut(d: bv8, w: bv32)
    ensures Low(PutLow(d, w)) == d
  {
  }

  lemma DownOfPut(d: bv8, w: bv32)
    requires w >> 24 == 0
    ensures Down(PutLow(d, w)) == w
  {
  }

  lemma WordRoundTrip(x: seq<bv8>)
    requires |x| <= 4
    ensures Fits(|x|, Word(x))
    ensures Disassemble(Low, Down, |x|, Word(x)) == x
  {
    forall n: nat, d, w | n < 4 && Fits(n, w)
      ensures Fits(n + 1, PutLow(d, w)) && Low(PutLow(d, w)) == d && Down(PutLow(d, w)) == w
    {
      PutLowRoom(n, d, w);
      LowOfPut(d, w);
      FitsShort(n, w);
      DownOfPut(d, w);
    }
    AssembleRoundTrip(PutLow, 0, Low, Down, Fits, 4, x);
  }

  lemma XorAssoc(a: bv32, b: bv32, c: bv32)
    ensures Xor(Xor(a, b), c) == Xor(a, Xor(b, c))
  {
  }

  /** The byte `d` followed by the word `w` enter the register as one word. */
  lemma FeedThenWord(n: nat, r: bv32, d: bv32, w: bv32)
    requires w >> 24 == 0
    ensures Steps(n, Xor(Steps(8, Xor(r, d)), w)) == Steps(8 + n, Xor(r, Xor(d, w << 8)))
  {
    hide Xor;
    StepsLifted(0, w);
    StepsLinear(8, Xor(r, d), w << 8);
    XorAssoc(r, d, w << 8);
    StepsSplit(8, n, Xor(r, Xor(d, w << 8)));
  }

  lemma WordShort(x: seq<bv8>)
    requires |x| <= 3
    ensures Word(x) >> 24 == 0
  {
    WordRoundTrip(x);
    FitsShort(|x|, Word(x));
  }

  /** Feeding up to four bytes one by one is feeding them at once as a word. */
  lemma {:induction false} CrcOfWord(r: bv32, x: seq<bv8>)
    requires |x| <= 4
    ensures Crc(r, x) == Steps(8 * |x|, Xor(r, Word(x)))
    decreases |x|
  {
    hide Xor;
    if x == [] {
      XorZero(r);
    } else {
      CrcOfWord(Feed(r, x[0]), x[1..]);
      WordShort(x[1..]);
      FeedThenWord(8 * |x[1..]|, r, x[0] as bv32, Word(x[1..]));
    }
  }

  lemma XorZero(r: bv32)
    ensures Xor(r, 0) == r
  {
  }

  // ---- burst detection ----

  lemma XorInjective(s: bv32, a: bv32, b: bv32)
    requires Xor(s, a) == Xor(s, b)
    ensures a == b
  {
  }

  lemma WindowDetected(s: bv32, x: seq<bv8>, y: seq<bv8>)
    requires |x| == |y| <= 4 && x != y
    ensures Crc(s, x) != Crc(s, y)
  {
    hide Xor;
    if Crc(s, x) == Crc(s, y) {
      var n := 8 * |x|;
      CrcOfWord(s, x);
      CrcOfWord(s, y);
      StepsBijective(n, Xor(s, Word(x)));
      StepsBijective(n, Xor(s, Word(y)));
      XorInjective(s, Word(x), Word(y));
      WordRoundTrip(x);
      WordRoundTrip(y);
    }
  }

  lemma CrcThreeParts(r: bv32, pre: seq<bv8>, x: seq<bv8>, suf: seq<bv8>)
    ensures Crc(r, pre + x + suf) == Crc(Crc(Crc(r, pre), x), suf)
  {
    FoldConcat(Feed, r, pre + x, suf);
    FoldConcat(Feed, r, pre, x);
  }

  /** A burst of at most four bytes always changes the register. */
  lemma BurstDetected(r: bv32, a: seq<bv8>, b: seq<bv8>, i: nat)
    requires DifferWithin(a, b, i, 4) && a != b
    ensures Crc(r, a) != Crc(r, b)
  {
    assert i < |a|;
    var k := if i + 4 <= |a| then i + 4 else |a|;
    assert a[..i] == b[..i] && a[k..] == b[k..];
    assert a == a[..i] + a[i..k] + a[k..] && b == b[..i] + b[i..k] + b[k..];
    CrcThreeParts(r, a[..i], a[i..k], a[k..]);
    CrcThreeParts(r, b[..i], b[i..k], b[k..]);
    var s := Crc(r, a[..i]);
    WindowDetected(s, a[i..k], b[i..k]);
    CrcBijective(Crc(s, a[i..k]), a[k..]);
    CrcBijective(Crc(s, b[i..k]), a[k..]);
  }
}
