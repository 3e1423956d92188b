// Bursts counted in bits: which windows of 32 consecutive bits crc32_update tells apart, for
// either order of the bits in a byte.

module Crc32Bursts {
  import opened Iteration
  import opened Bytes
  import opened CrcSpec
  import opened Crc32
  import opened Crc32Constants
  import opened Crc32Streaming

  // ---- bits of data ----

  function BitMask(j: nat): bv8 {
    if j == 0 then 1 else if j == 1 then 2 else if j == 2 then 4 else if j == 3 then 8
    else if j == 4 then 16 else if j == 5 then 32 else if j == 6 then 64 else 128
  }

  predicate Bit(b: bv8, j: nat) {
    b & BitMask(j) != 0
  }

  /** Bit t of the data, the low bit of each byte first. */
  predicate LowFirst(x: seq<bv8>, t: nat)
    requires t < 8 * |x|
  {
    Bit(x[t / 8], t % 8)
  }

  /** Bit t of the data, the high bit of each byte first. */
  predicate HighFirst(x: seq<bv8>, t: nat)
    requires t < 8 * |x|
  {
    Bit(x[t / 8], 7 - t % 8)
  }

  ghost predicate LowBurst(a: seq<bv8>, b: seq<bv8>, i: nat) {
    |a| == |b| && forall t: nat :: t < 8 * |a| && !(i <= t < i + 32) ==> LowFirst(a, t) == LowFirst(b, t)
  }

  ghost predicate HighBurst(a: seq<bv8>, b: seq<bv8>, i: nat) {
    |a| == |b| && forall t: nat :: t < 8 * |a| && !(i <= t < i + 32) ==> HighFirst(a, t) == HighFirst(b, t)
  }

  // ---- the bits of one byte ----

  /** The low s bits. */
  function LowMask(s: nat): bv8 {
    if s == 0 then 0 else if s == 1 then 1 else if s == 2 then 3 else if s == 3 then 7
    else if s == 4 then 15 else if s == 5 then 31 else if s == 6 then 63 else 127
  }

  lemma SameBit(a: bv8, b: bv8, m: bv8)
    requires (a & m != 0) == (b & m != 0)
    requires m == 1 || m == 2 || m == 4 || m == 8 || m == 16 || m == 32 || m == 64 || m == 128
    ensures (a ^ b) & m == 0
  {
  }

  lemma SameBitAt(a: bv8, b: bv8, j: nat)
    requires Bit(a, j) == Bit(b, j)
    ensures (a ^ b) & BitMask(j) == 0
  {
    SameBit(a, b, BitMask(j));
  }

  lemma SameLowBits(a: bv8, b: bv8, s: nat)
    requires s < 8 && forall j: nat :: j < s ==> Bit(a, j) == Bit(b, j)
    ensures (a ^ b) & LowMask(s) == 0
  {
    hide Bit;
    forall j: nat | j < s ensures (a ^ b) & BitMask(j) == 0 {
      SameBitAt(a, b, j);
    }
    ClearBelow(a ^ b, s);
  }

  lemma ClearBelow(x: bv8, s: nat)
    requires s < 8 && forall j: nat :: j < s ==> x & BitMask(j) == 0
    ensures x & LowMask(s) == 0
  {
    assert s > 0 ==> x & BitMask(0) == 0;
    assert s > 1 ==> x & BitMask(1) == 0;
    assert s > 2 ==> x & BitMask(2) == 0;
    assert s > 3 ==> x & BitMask(3) == 0;
    assert s > 4 ==> x & BitMask(4) == 0;
    assert s > 5 ==> x & BitMask(5) == 0;
    assert s > 6 ==> x & BitMask(6) == 0;
  }

  lemma SameHighBits(a: bv8, b: bv8, s: nat)
    requires s < 8 && forall j: nat :: s <= j < 8 ==> Bit(a, j) == Bit(b, j)
    ensures (a ^ b) & LowMask(s) == a ^ b
  {
    hide Bit;
    forall j: nat | s <= j < 8 ensures (a ^ b) & BitMask(j) == 0 {
      SameBitAt(a, b, j);
    }
    ClearAbove(a ^ b, s);
  }

  lemma ClearAbove(x: bv8, s: nat)
    requires s < 8 && forall j: nat :: s <= j < 8 ==> x & BitMask(j) == 0
    ensures x & LowMask(s) == x
  {
    assert x & BitMask(7) == 0;
    assert s <= 0 ==> x & BitMask(0) == 0;
    assert s <= 1 ==> x & BitMask(1) == 0;
    assert s <= 2 ==> x & BitMask(2) == 0;
    assert s <= 3 ==> x & BitMask(3) == 0;
    assert s <= 4 ==> x & BitMask(4) == 0;
    assert s <= 5 ==> x & BitMask(5) == 0;
    assert s <= 6 ==> x & BitMask(6) == 0;
  }

  lemma SameByte(a: bv8, b: bv8)
    requires forall j: nat :: j < 8 ==> Bit(a, j) == Bit(b, j)
    ensures a == b
  {
    SameHighBits(a, b, 0);
    NoDifference(a, b);
  }

  lemma NoDifference(a: bv8, b: bv8)
    requires a ^ b == 0
    ensures a == b
  {
  }

  // ---- a difference of at most 32 bits is never lost ----

  function WideMask(s: nat): bv32 {
    LowMask(s) as bv32
  }

  /** The top bit takes 31 shifts to come down and is the polynomial one shift later. */
  lemma StepsOfTop()
    ensures Steps(32, 0x8000_0000) == POLY
  {
    hide Steps, EightTimes;
    StepsAreEightTimes(0x8000_0000);
    StepsAreEightTimes(0x0080_0000);
    StepsAreEightTimes(0x0000_8000);
    StepsAreEightTimes(0x0000_0080);
    TopFalls();
    StepsSplit(8, 8, 0x8000_0000);
    StepsSplit(16, 8, 0x8000_0000);
    StepsSplit(24, 8, 0x8000_0000);
  }

  lemma TopFalls()
    ensures EightTimes(0x8000_0000) == 0x0080_0000 && EightTimes(0x0080_0000) == 0x0000_8000
    ensures EightTimes(0x0000_8000) == 0x0000_0080 && EightTimes(0x0000_0080) == POLY
  {
  }

  function Top(odd: bool): bv32 {
    if odd then 0x8000_0000 else 0
  }

  /** One shift of w is its half; one shift of f is its half, and the polynomial if f is odd. */
  lemma HalveLow(w: bv32, s: nat)
    requires 0 < s < 8 && w & WideMask(s) == 0
    ensures w & 1 == 0 && (w >> 1) & WideMask(s - 1) == 0
    ensures forall odd :: Xor(w >> 1, Top(odd)) & WideMask(s - 1) == 0
  {
  }

  lemma HalveSmall(f: bv32, s: nat)
    requires 0 < s < 8 && f & WideMask(s) == f
    ensures (f >> 1) & WideMask(s - 1) == f >> 1
  {
  }

  predicate Odd(f: bv32) {
    f & 1 == 1
  }

  function IfOdd(odd: bool): bv32 {
    if odd then POLY else 0
  }

  lemma StepOfEven(w: bv32)
    requires w & 1 == 0
    ensures Step(w) == w >> 1
  {
  }

  lemma StepOf(f: bv32)
    ensures Step(f) == Xor(f >> 1, IfOdd(Odd(f)))
  {
    LowBit(f);
    if f & 1 == 0 {
      StepOfEven(f);
      XorZero(f >> 1);
      hide Xor;
    }
  }

  lemma StepsOne(r: bv32)
    ensures Steps(1, r) == Step(r)
  {
    hide Step;
    assert Iterate(0, Step, Step(r)) == Step(r);
  }

  lemma StepsOfTopIf(odd: bool)
    ensures Steps(32, Top(odd)) == IfOdd(odd)
  {
    hide Steps;
    StepsOfTop();
    StepsOfZero(32);
  }

  lemma BothZero(w: bv32, f: bv32)
    requires w & 1 == 0 && Xor(w >> 1, Top(Odd(f))) == 0 && f >> 1 == 0
    ensures w == 0 && f == 0
  {
  }

  lemma NeverToZero(w: bv32)
    requires Steps(32, w) == 0
    ensures w == 0
  {
    hide Steps;
    StepsOfZero(32);
    StepsBijective(32, w);
    StepsBijective(32, 0);
  }

  lemma Halved(w: bv32, f: bv32)
    requires w & 1 == 0 && Steps(32, w) == f
    ensures Steps(32, Xor(w >> 1, Top(Odd(f)))) == f >> 1
  {
    hide Steps, Xor, Top, IfOdd, Step, Odd;
    StepsSplit(1, 32, w);
    StepsSplit(32, 1, w);
    StepsOne(w);
    StepsOne(f);
    StepOfEven(w);
    StepOf(f);
    StepsLinear(32, w >> 1, Top(Odd(f)));
    StepsOfTopIf(Odd(f));
    XorTwice(f >> 1, IfOdd(Odd(f)));
  }

  /** 32 shifts never bring a difference whose low s bits are clear down to one within s bits. */
  lemma {:induction false} NoKernel(w: bv32, f: bv32, s: nat)
    requires s < 8 && w & WideMask(s) == 0 && f & WideMask(s) == f && Steps(32, w) == f
    ensures w == 0 && f == 0
    decreases s
  {
    hide Steps, Xor, Top, Odd;
    if s == 0 {
      NeverToZero(w);
    } else {
      hide WideMask;
      HalveLow(w, s);
      HalveSmall(f, s);
      Halved(w, f);
      NoKernel(Xor(w >> 1, Top(Odd(f))), f >> 1, s - 1);
      BothZero(w, f);
    }
  }

  // ---- five bytes ----

  function Wide(d: bv8): bv32 {
    d as bv32
  }

  lemma CrcOfFive(r: bv32, x: seq<bv8>)
    requires |x| == 5
    ensures Crc(r, x) == Steps(8, Xor(Steps(32, Xor(r, Word(x[..4]))), Wide(x[4])))
  {
    hide Steps, Xor, Word;
    assert x[..5] == x && x[..4] + [x[4]] == x;
    CrcSnoc(r, x, 4);
    CrcOfWord(r, x[..4]);
    FeedIs(Crc(r, x[..4]), x[4]);
  }

  lemma FeedIs(r: bv32, d: bv8)
    ensures Feed(r, d) == Steps(8, Xor(r, Wide(d)))
  {
    hide Steps, Xor;
  }

  lemma XorParts(u: bv32, v: bv32, d: bv32, e: bv32)
    requires Xor(u, d) == Xor(v, e)
    ensures Xor(u, v) == Xor(d, e)
  {
    hide Xor;
    XorTwice(u, d);
    XorAssoc(v, e, d);
    XorSwap(v, Xor(e, d));
    XorTwice(Xor(e, d), v);
    XorSwap(e, d);
  }

  lemma XorCancel(r: bv32, a: bv32, b: bv32)
    ensures Xor(Xor(r, a), Xor(r, b)) == Xor(a, b)
  {
    hide Xor;
    XorSwap(r, a);
    XorAssoc(a, r, Xor(r, b));
    XorAssoc(r, r, b);
    XorSelf(r);
    ZeroXor(r, b);
  }

  lemma XorZeroMeans(a: bv32, b: bv32)
    requires Xor(a, b) == 0
    ensures a == b
  {
  }

  lemma SameSteps(n: nat, a: bv32, b: bv32)
    requires Steps(n, a) == Steps(n, b)
    ensures a == b
  {
    hide Steps;
    StepsBijective(n, a);
    StepsBijective(n, b);
  }

  /** The low s bits agree. */
  predicate LowAgree(a: bv8, b: bv8, s: nat) {
    (a ^ b) & LowMask(s) == 0
  }

  /** All but the low s bits agree. */
  predicate HighAgree(a: bv8, b: bv8, s: nat) {
    (a ^ b) & LowMask(s) == a ^ b
  }

  lemma LowOfWords(x: seq<bv8>, y: seq<bv8>, s: nat)
    requires |x| == |y| == 4 && s < 8 && LowAgree(x[0], y[0], s)
    ensures Xor(Word(x), Word(y)) & WideMask(s) == 0
  {
    hide Word, LowMask, Xor, Low;
    FirstByte(x);
    FirstByte(y);
    LowDifference(Word(x), Word(y), LowMask(s), x[0], y[0]);
  }

  lemma FirstByte(x: seq<bv8>)
    requires |x| == 4
    ensures Low(Word(x)) == x[0]
  {
    hide Word, Low, Down;
    WordRoundTrip(x);
    assert Disassemble(Low, Down, 4, Word(x))[0] == Low(Word(x));
  }

  lemma LowDifference(v: bv32, w: bv32, m: bv8, a: bv8, b: bv8)
    requires Low(v) == a && Low(w) == b && (a ^ b) & m == 0
    ensures Xor(v, w) & (m as bv32) == 0
  {
  }

  lemma WideDifference(d: bv8, e: bv8, s: nat)
    requires HighAgree(d, e, s)
    ensures Xor(Wide(d), Wide(e)) & WideMask(s) == Xor(Wide(d), Wide(e))
    ensures Xor(Wide(d), Wide(e)) == 0 ==> d == e
  {
    hide LowMask;
  }

  lemma SameFive(r: bv32, v: bv32, w: bv32, d: bv32, e: bv32)
    requires Steps(8, Xor(Steps(32, Xor(r, v)), d)) == Steps(8, Xor(Steps(32, Xor(r, w)), e))
    ensures Steps(32, Xor(v, w)) == Xor(d, e)
  {
    hide Steps, Xor;
    SameSteps(8, Xor(Steps(32, Xor(r, v)), d), Xor(Steps(32, Xor(r, w)), e));
    XorParts(Steps(32, Xor(r, v)), Steps(32, Xor(r, w)), d, e);
    StepsLinear(32, Xor(r, v), Xor(r, w));
    XorCancel(r, v, w);
  }

  lemma NothingLost(v: bv32, w: bv32, d: bv8, e: bv8, s: nat)
    requires s < 8 && Xor(v, w) & WideMask(s) == 0 && HighAgree(d, e, s)
    requires Steps(32, Xor(v, w)) == Xor(Wide(d), Wide(e))
    ensures v == w && d == e
  {
    hide Steps, Xor, WideMask, HighAgree;
    WideDifference(d, e, s);
    NoKernel(Xor(v, w), Xor(Wide(d), Wide(e)), s);
    XorZeroMeans(v, w);
  }

  /** Five bytes that differ only from bit s of the first to bit s of the last. */
  lemma FiveDetected(r: bv32, x: seq<bv8>, y: seq<bv8>, s: nat)
    requires |x| == |y| == 5 && s < 8 && x != y && LowAgree(x[0], y[0], s) && HighAgree(x[4], y[4], s)
    ensures Crc(r, x) != Crc(r, y)
  {
    hide Steps, Xor, Word, Crc, LowAgree, HighAgree, WideMask, Wide;
    assert x == x[..4] + [x[4]] && y == y[..4] + [y[4]];
    if Crc(r, x) == Crc(r, y) {
      var v, w := Word(x[..4]), Word(y[..4]);
      CrcOfFive(r, x);
      CrcOfFive(r, y);
      SameFive(r, v, w, Wide(x[4]), Wide(y[4]));
      LowOfWords(x[..4], y[..4], s);
      NothingLost(v, w, x[4], y[4], s);
      SameWords(x[..4], y[..4]);
    }
  }

  lemma SameWords(x: seq<bv8>, y: seq<bv8>)
    requires |x| == |y| == 4 && Word(x) == Word(y)
    ensures x == y
  {
    hide Word;
    WordRoundTrip(x);
    WordRoundTrip(y);
  }

  // ---- bursts in consumption order, the low bit of each byte first ----

  /** Bytes whose bits all lie outside the window agree. */
  lemma OutsideAgrees(a: seq<bv8>, b: seq<bv8>, i: nat, m: nat)
    requires LowBurst(a, b, i) && m < |a| && (m < i / 8 || m > i / 8 + 4)
    ensures a[m] == b[m]
  {
    hide Bit;
    forall j: nat | j < 8 ensures Bit(a[m], j) == Bit(b[m], j) {
      SameAt(a, b, i, m, j);
    }
    SameByte(a[m], b[m]);
  }

  lemma SameAt(a: seq<bv8>, b: seq<bv8>, i: nat, m: nat, j: nat)
    requires LowBurst(a, b, i) && m < |a| && j < 8 && !(i <= 8 * m + j < i + 32)
    ensures Bit(a[m], j) == Bit(b[m], j)
  {
    hide Bit;
    var t := 8 * m + j;
    assert t / 8 == m && t % 8 == j;
    assert LowFirst(a, t) == LowFirst(b, t);
  }

  lemma EdgesAgree(a: seq<bv8>, b: seq<bv8>, i: nat)
    requires LowBurst(a, b, i) && i / 8 + 4 < |a|
    ensures LowAgree(a[i / 8], b[i / 8], i % 8) && HighAgree(a[i / 8 + 4], b[i / 8 + 4], i % 8)
  {
    hide Bit, LowMask, LowFirst;
    var k, s := i / 8, i % 8;
    forall j: nat | j < s ensures Bit(a[k], j) == Bit(b[k], j) {
      SameAt(a, b, i, k, j);
    }
    SameLowBits(a[k], b[k], s);
    var c, d := a[k + 4], b[k + 4];
    forall j: nat | s <= j < 8 ensures Bit(c, j) == Bit(d, j) {
      SameAt(a, b, i, k + 4, j);
    }
    SameHighBits(c, d, s);
  }

  lemma MiddleOut(s: seq<bv8>, k: nat, n: nat)
    requires k + n <= |s|
    ensures s == s[..k] + s[k..k + n] + s[k + n..]
  {
  }

  /** A burst of 32 bits always changes the register, even when it spans five bytes. */
  lemma BitBurstDetected(r: bv32, a: seq<bv8>, b: seq<bv8>, i: nat)
    requires LowBurst(a, b, i) && a != b
    ensures Crc(r, a) != Crc(r, b)
  {
    hide Crc, LowAgree, HighAgree, LowFirst;
    var k, n := i / 8, |a|;
    forall m | 0 <= m < n && !(k <= m < k + 5) ensures a[m] == b[m] {
      OutsideAgrees(a, b, i, m);
    }
    if n <= k + 4 {
      BurstDetected(r, a, b, k);
    } else {
      var x, y := a[k..k + 5], b[k..k + 5];
      assert a[..k] == b[..k] && a[k + 5..] == b[k + 5..];
      MiddleOut(a, k, 5);
      MiddleOut(b, k, 5);
      EdgesAgree(a, b, i);
      CrcThreeParts(r, a[..k], x, a[k + 5..]);
      CrcThreeParts(r, b[..k], y, b[k + 5..]);
      var s := Crc(r, a[..k]);
      FiveDetected(s, x, y, i % 8);
      CrcBijective(Crc(s, x), a[k + 5..]);
      CrcBijective(Crc(s, y), a[k + 5..]);
    }
  }

  // ---- bursts in the data ----

  /** Data that is turned round is also read with its bits turned round. */
  lemma TurnedBurst(a: seq<bv8>, b: seq<bv8>, i: nat) returns (k: nat)
    requires HighBurst(a, b, i) && |a| <= 8
    ensures LowBurst(Consumed(a), Consumed(b), k)
  {
    hide Bit;
    var n := 8 * |a|;
    k := if n >= i + 32 then n - 32 - i else 0;
    forall t: nat | t < n && !(k <= t < k + 32)
      ensures LowFirst(Consumed(a), t) == LowFirst(Consumed(b), t)
    {
      var u := n - 1 - t;
      assert u / 8 == |a| - 1 - t / 8 && 7 - u % 8 == t % 8;
      assert HighFirst(a, u) == HighFirst(b, u);
    }
  }

  ghost predicate DetectsLowFirst(n: nat) {
    forall reg, a, b, i :: |a| == n && LowBurst(a, b, i) && a != b ==> Crc(reg, Consumed(a)) != Crc(reg, Consumed(b))
  }

  ghost predicate DetectsHighFirst(n: nat) {
    forall reg, a, b, i :: |a| == n && HighBurst(a, b, i) && a != b ==> Crc(reg, Consumed(a)) != Crc(reg, Consumed(b))
  }

  // ---- bursts that are lost in the other order ----

  lemma {:induction false} CrcOfZeros(n: nat)
    ensures Crc(0, Zeros(n)) == 0
  {
    if n > 0 {
      assert Zeros(n)[..n - 1] == Zeros(n - 1) && Zeros(n)[..n] == Zeros(n);
      CrcSnoc(0, Zeros(n), n - 1);
      CrcOfZeros(n - 1);
      StepsOfZero(8);
      FeedZero();
    }
  }

  lemma FeedZero()
    ensures Feed(0, 0) == 0
  {
    hide Steps;
    StepsOfZero(8);
  }

  /** Five bytes that a short packet is read in, last byte first. */
  const LOST_SHORT: seq<bv8> := [0x70, 0x6A, 0xF4, 0x8F, 0x05]

  /** Five bytes at the front of a long one. */
  const LOST_LONG: seq<bv8> := [0x0A, 0x1E, 0xE9, 0xD5, 0xE0]

  lemma LostShortRegisters()
    ensures Feed(0x00000000, 0x05) == 0x706AF48F
    ensures Feed(0x706AF48F, 0x8F) == 0x00706AF4
    ensures Feed(0x00706AF4, 0xF4) == 0x0000706A
    ensures Feed(0x0000706A, 0x6A) == 0x00000070
    ensures Feed(0x00000070, 0x70) == 0x00000000
  {
    FeedEvaluated(0x00000000, 0x05, 0x706AF48F);
    FeedEvaluated(0x706AF48F, 0x8F, 0x00706AF4);
    FeedEvaluated(0x00706AF4, 0xF4, 0x0000706A);
    FeedEvaluated(0x0000706A, 0x6A, 0x00000070);
    FeedEvaluated(0x00000070, 0x70, 0x00000000);
  }

  lemma LostLongRegisters()
    ensures Feed(0x00000000, 0x0A) == 0xE0D5E91E
    ensures Feed(0xE0D5E91E, 0x1E) == 0x00E0D5E9
    ensures Feed(0x00E0D5E9, 0xE9) == 0x0000E0D5
    ensures Feed(0x0000E0D5, 0xD5) == 0x000000E0
    ensures Feed(0x000000E0, 0xE0) == 0x00000000
  {
    FeedEvaluated(0x00000000, 0x0A, 0xE0D5E91E);
    FeedEvaluated(0xE0D5E91E, 0x1E, 0x00E0D5E9);
    FeedEvaluated(0x00E0D5E9, 0xE9, 0x0000E0D5);
    FeedEvaluated(0x0000E0D5, 0xD5, 0x000000E0);
    FeedEvaluated(0x000000E0, 0xE0, 0x00000000);
  }

  lemma CrcOfFiveFeeds(r: bv32, x: seq<bv8>)
    requires |x| == 5
    ensures Crc(r, x) == Feed(Feed(Feed(Feed(Feed(r, x[0]), x[1]), x[2]), x[3]), x[4])
  {
    hide Feed, Crc;
    CrcEmpty(r);
    CrcSnoc(r, x, 4);
    CrcSnoc(r, x, 3);
    CrcSnoc(r, x, 2);
    CrcSnoc(r, x, 1);
    CrcSnoc(r, x, 0);
    assert x[..5] == x && x[..0] == [];
  }

  lemma LostRegisters()
    ensures Crc(0, Reverse(LOST_SHORT)) == 0 && Crc(0, LOST_LONG) == 0
  {
    hide Feed, Crc;
    LostShortRegisters();
    LostLongRegisters();
    assert Reverse(LOST_SHORT) == [0x05, 0x8F, 0xF4, 0x6A, 0x70];
    CrcOfFiveFeeds(0, Reverse(LOST_SHORT));
    CrcOfFiveFeeds(0, LOST_LONG);
  }

  lemma ZeroByteBits(j: nat)
    ensures !Bit(0, j)
  {
  }

  lemma LostBits(j: nat)
    ensures j < 4 ==> !Bit(0x70, j) && !Bit(0x0A, 7 - j)
    ensures 4 <= j < 8 ==> !Bit(0x05, j) && !Bit(0xE0, 7 - j)
  {
  }

  lemma LowWindow(n: nat)
    requires n >= 5
    ensures LowBurst(LOST_SHORT + Zeros(n - 5), Zeros(n), 4)
  {
    hide Bit;
    var a := LOST_SHORT + Zeros(n - 5);
    forall t: nat | t < 8 * n && !(4 <= t < 36) ensures LowFirst(a, t) == LowFirst(Zeros(n), t) {
      ZeroByteBits(t % 8);
      LostBits(t % 8);
    }
  }

  lemma HighWindow(n: nat)
    requires n >= 5
    ensures HighBurst(LOST_LONG + Zeros(n - 5), Zeros(n), 4)
  {
    hide Bit;
    var a := LOST_LONG + Zeros(n - 5);
    forall t: nat | t < 8 * n && !(4 <= t < 36) ensures HighFirst(a, t) == HighFirst(Zeros(n), t) {
      ZeroByteBits(7 - t % 8);
      LostBits(t % 8);
    }
  }

  lemma LostLowFirst(n: nat)
    requires 5 <= n <= 8
    ensures !DetectsLowFirst(n)
  {
    hide Crc;
    var a, b := LOST_SHORT + Zeros(n - 5), Zeros(n);
    LowWindow(n);
    LostRegisters();
    assert Consumed(a) == Zeros(n - 5) + Reverse(LOST_SHORT) && Consumed(b) == Zeros(n);
    CrcParts(0, Zeros(n - 5), Reverse(LOST_SHORT));
    CrcOfZeros(n - 5);
    CrcOfZeros(n);
    assert a[0] != b[0];
  }

  lemma LostHighFirst(n: nat)
    requires n > 8
    ensures !DetectsHighFirst(n)
  {
    hide Crc;
    var a, b := LOST_LONG + Zeros(n - 5), Zeros(n);
    HighWindow(n);
    LostRegisters();
    assert Consumed(a) == a && Consumed(b) == b;
    CrcParts(0, LOST_LONG, Zeros(n - 5));
    CrcOfZeros(n - 5);
    CrcOfZeros(n);
    assert a[0] != b[0];
  }

  // ---- exactly the lengths at which they are told apart ----

  /** Two inputs of n bytes that differ only inside 32 consecutive bits, counted from the low bit
      of each byte, always leave different registers if and only if n is not 5 to 8. */
  lemma LowFirstExactly(n: nat)
    ensures DetectsLowFirst(n) <==> n <= 4 || n > 8
  {
    hide Crc, LowBurst;
    if n <= 4 || n > 8 {
      forall reg, a, b, i | |a| == n && LowBurst(a, b, i) && a != b
        ensures Crc(reg, Consumed(a)) != Crc(reg, Consumed(b))
      {
        SameLength(a, b, i);
        if n > 8 {
          assert Consumed(a) == a && Consumed(b) == b;
          BitBurstDetected(reg, a, b, i);
        } else {
          UpdateDetectsBursts(reg, a, b, 0);
        }
      }
    } else {
      LostLowFirst(n);
    }
  }

  lemma SameLength(a: seq<bv8>, b: seq<bv8>, i: nat)
    requires LowBurst(a, b, i)
    ensures |a| == |b|
  {
  }

  /** Counted from the high bit of each byte, if and only if n is at most 8: short data is read
      backwards, bytes and bits alike. */
  lemma HighFirstExactly(n: nat)
    ensures DetectsHighFirst(n) <==> n <= 8
  {
    hide Crc, LowFirst, HighFirst;
    if n <= 8 {
      forall reg, a, b, i | |a| == n && HighBurst(a, b, i) && a != b
        ensures Crc(reg, Consumed(a)) != Crc(reg, Consumed(b))
      {
        var k := TurnedBurst(a, b, i);
        assert Consumed(Consumed(a)) == a && Consumed(Consumed(b)) == b;
        BitBurstDetected(reg, Consumed(a), Consumed(b), k);
      }
    } else {
      LostHighFirst(n);
    }
  }
}
