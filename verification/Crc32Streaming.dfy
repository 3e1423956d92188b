// Which chunk lengths may be fed to crc32_update one after the other.

module Crc32Streaming {
  import opened Iteration
  import opened CrcSpec
  import opened Crc32
  import opened Crc32Constants

  /** Two updates do what one update over the concatenation does. */
  predicate Streams(reg: bv32, a: seq<bv8>, b: seq<bv8>) {
    Crc(Crc(reg, Consumed(a)), Consumed(b)) == Crc(reg, Consumed(a + b))
  }

  ghost predicate LengthsStream(m: nat, n: nat) {
    forall reg, a, b :: |a| == m && |b| == n ==> Streams(reg, a, b)
  }

  /** A chunk that is consumed in order, whatever its bytes. */
  predicate InOrder(n: nat) {
    n == 1 || n > 8
  }

  lemma StreamsByOrder(reg: bv32, a: seq<bv8>, b: seq<bv8>)
    ensures Streams(reg, a, b) <==> Crc(reg, Consumed(a) + Consumed(b)) == Crc(reg, Consumed(a + b))
  {
    FoldConcat(Feed, reg, Consumed(a), Consumed(b));
  }

  /** n bytes, all zero but a 1 at place i. */
  function Spike(n: nat, i: nat): (r: seq<bv8>)
    ensures |r| == n && forall k :: 0 <= k < n ==> r[k] == if k == i then 1 else 0
  {
    seq(n, k => if k == i then 1 else 0)
  }

  /** Spikes at two places at most three apart are told apart. */
  lemma SpikesDiffer(reg: bv32, x: seq<bv8>, y: seq<bv8>, i: nat, j: nat)
    requires |x| == |y| && i < j < |x| && j - i <= 3
    requires (x == Spike(|x|, i) && y == Spike(|x|, j)) || (x == Spike(|x|, j) && y == Spike(|x|, i))
    ensures Crc(reg, x) != Crc(reg, y)
  {
    hide Crc;
    assert x[i] != y[i];
    BurstDetected(reg, x, y, i);
  }

  // ---- lengths that do not stream ----

  /** Two chunks with a 1 among zeros that stands elsewhere when they are consumed in one piece. */
  lemma SpikeMoved(a: seq<bv8>, b: seq<bv8>, i: nat, j: nat)
    requires i < j < |a| + |b| && j - i <= 3
    requires var n, apart, whole := |a| + |b|, Consumed(a) + Consumed(b), Consumed(a + b);
      (apart == Spike(n, i) && whole == Spike(n, j)) || (apart == Spike(n, j) && whole == Spike(n, i))
    ensures !LengthsStream(|a|, |b|)
  {
    hide Crc;
    SpikesDiffer(0, Consumed(a) + Consumed(b), Consumed(a + b), i, j);
    StreamsByOrder(0, a, b);
    assert !Streams(0, a, b);
  }

  /** Consuming up to 8 bytes turns a spike round; there is none at place n. */
  lemma SpikeTurned(n: nat, i: nat)
    requires n <= 8 && i <= n
    ensures Consumed(Spike(n, i)) == Spike(n, if i < n then n - 1 - i else n)
  {
  }

  lemma SpikeInOrder(n: nat, i: nat)
    requires InOrder(n)
    ensures Consumed(Spike(n, i)) == Spike(n, i)
  {
  }

  lemma NoSpike(n: nat)
    ensures Consumed(Spike(n, n)) == Spike(n, n)
  {
  }

  lemma SpikeThenZeros(m: nat, n: nat, i: nat)
    requires i < m
    ensures Spike(m, i) + Spike(n, n) == Spike(m + n, i)
  {
  }

  lemma ZerosThenSpike(m: nat, n: nat, i: nat)
    ensures Spike(m, m) + Spike(n, i) == Spike(m + n, m + i)
  {
  }

  /** A short first chunk of at least two bytes before a long rest: its middle is turned round. */
  lemma FirstTurned(m: nat, n: nat)
    requires 2 <= m <= 8 && m + n > 8
    ensures !LengthsStream(m, n)
  {
    hide LengthsStream, Spike, Consumed;
    var i := (m - 2) / 2;
    var j := m - 1 - i;
    SpikeTurned(m, i);
    NoSpike(n);
    SpikeThenZeros(m, n, j);
    SpikeThenZeros(m, n, i);
    SpikeInOrder(m + n, i);
    SpikeMoved(Spike(m, i), Spike(n, n), i, j);
  }

  /** A short second chunk behind a chunk in order. */
  lemma SecondTurned(m: nat, n: nat)
    requires InOrder(m) && 2 <= n <= 8 && m + n > 8
    ensures !LengthsStream(m, n)
  {
    hide LengthsStream, Spike, Consumed;
    var i := (n - 2) / 2;
    var j := n - 1 - i;
    NoSpike(m);
    SpikeTurned(n, i);
    ZerosThenSpike(m, n, j);
    ZerosThenSpike(m, n, i);
    SpikeInOrder(m + n, m + i);
    SpikeMoved(Spike(m, m), Spike(n, i), m + i, m + j);
  }

  /** Two chunks that are short together change places: the last byte of the second moves by
      the length of the first. */
  lemma SecondMoved(m: nat, n: nat)
    requires 1 <= m <= 3 && 1 <= n && m + n <= 8
    ensures !LengthsStream(m, n)
  {
    hide LengthsStream, Spike, Consumed;
    SecondApart(m, n);
    SecondWhole(m, n);
    SpikeMoved(Spike(m, m), Spike(n, n - 1), 0, m);
  }

  lemma SecondApart(m: nat, n: nat)
    requires m <= 8 && 1 <= n <= 8
    ensures Consumed(Spike(m, m)) + Consumed(Spike(n, n - 1)) == Spike(m + n, m)
  {
    hide Spike, Consumed;
    NoSpike(m);
    SpikeTurned(n, n - 1);
    ZerosThenSpike(m, n, 0);
  }

  lemma SecondWhole(m: nat, n: nat)
    requires 1 <= n && m + n <= 8
    ensures Consumed(Spike(m, m) + Spike(n, n - 1)) == Spike(m + n, 0)
  {
    hide Spike, Consumed;
    ZerosThenSpike(m, n, n - 1);
    SpikeTurned(m + n, m + n - 1);
  }

  /** And the last byte of the first by the length of the second. */
  lemma FirstMoved(m: nat, n: nat)
    requires 1 <= m && 1 <= n <= 3 && m + n <= 8
    ensures !LengthsStream(m, n)
  {
    hide LengthsStream, Spike, Consumed;
    FirstApart(m, n);
    FirstWhole(m, n);
    SpikeMoved(Spike(m, m - 1), Spike(n, n), 0, n);
  }

  lemma FirstApart(m: nat, n: nat)
    requires 1 <= m <= 8 && n <= 8
    ensures Consumed(Spike(m, m - 1)) + Consumed(Spike(n, n)) == Spike(m + n, 0)
  {
    hide Spike, Consumed;
    SpikeTurned(m, m - 1);
    NoSpike(n);
    SpikeThenZeros(m, n, 0);
  }

  lemma FirstWhole(m: nat, n: nat)
    requires 1 <= m && m + n <= 8
    ensures Consumed(Spike(m, m - 1) + Spike(n, n)) == Spike(m + n, n)
  {
    hide Spike, Consumed;
    SpikeThenZeros(m, n, m - 1);
    SpikeTurned(m + n, m - 1);
  }

  lemma OneAndZeros()
    ensures Word([1, 0, 0, 0]) == 1 && Word([0, 0, 0, 0]) == 0
  {
    hide PutLow;
    WordOfFour(1, 0, 0, 0);
    WordOfFour(0, 0, 0, 0);
    LiteralWords();
  }

  lemma LiteralWords()
    ensures PutLow(1, PutLow(0, PutLow(0, PutLow(0, 0)))) == 1
    ensures PutLow(0, PutLow(0, PutLow(0, PutLow(0, 0)))) == 0
  {
  }

  lemma StepsOfZero(n: nat)
    ensures Steps(n, 0) == 0
  {
    hide Steps, Xor;
    StepsLinear(n, 0, 0);
    XorSelf(0);
    XorSelf(Steps(n, 0));
  }

  lemma NumbersOfOne()
    ensures Steps(32, 1) == 0xB8BC6765 && Steps(64, 1) == 0xCCAA009E
  {
    hide Steps;
    PowerEntriesAreSteps(3);
    PowerEntriesAreSteps(7);
    assert Steps(8 * 3 + 8, POWERS[0]) == PowerEntries(3)[0];
    assert Steps(8 * 7 + 8, POWERS[0]) == PowerEntries(7)[0];
  }

  /** Four bytes and four bytes: no short burst, but two known values of the register. */
  lemma FourAndFour()
    ensures !LengthsStream(4, 4)
  {
    hide Steps, Word, Xor, Crc;
    var one: seq<bv8>, zero: seq<bv8> := [1, 0, 0, 0], [0, 0, 0, 0];
    var a, b: seq<bv8> := [0, 0, 0, 1], [0, 0, 0, 0];
    OneAndZeros();
    CrcOfFour(0, one, 1);
    CrcOfFour(0, zero, 0);
    CrcOfFour(Steps(32, 1), zero, 0);
    StepsSplit(32, 32, 1);
    StepsOfZero(32);
    NumbersOfOne();
    assert Consumed(a) + Consumed(b) == one + zero && Consumed(a + b) == zero + one;
    StreamsByOrder(0, a, b);
    CrcParts(0, one, zero);
    CrcParts(0, zero, one);
    assert !Streams(0, a, b);
  }

  lemma CrcParts(r: bv32, a: seq<bv8>, b: seq<bv8>)
    ensures Crc(r, a + b) == Crc(Crc(r, a), b)
  {
    FoldConcat(Feed, r, a, b);
  }

  lemma CrcOfFour(r: bv32, x: seq<bv8>, w: bv32)
    requires |x| == 4 && Word(x) == w
    ensures Crc(r, x) == Steps(32, Xor(r, w))
    ensures Xor(r, 0) == r && Xor(0, w) == w
  {
    CrcOfWord(r, x);
    ZeroXor(r, w);
    hide Xor;
  }

  lemma ZeroXor(r: bv32, w: bv32)
    ensures Xor(r, 0) == r && Xor(0, w) == w
  {
  }

  // ---- exactly the lengths that stream ----

  lemma ConsumedJoin(a: seq<bv8>, b: seq<bv8>)
    requires a == [] || b == [] || (|a| + |b| > 8 && InOrder(|a|) && InOrder(|b|))
    ensures Consumed(a) + Consumed(b) == Consumed(a + b)
  {
    if a == [] {
      assert a + b == b;
    } else if b == [] {
      assert a + b == a;
    }
  }

  lemma StreamsInOrder(m: nat, n: nat)
    requires m == 0 || n == 0 || (m + n > 8 && InOrder(m) && InOrder(n))
    ensures LengthsStream(m, n)
  {
    hide Crc;
    forall reg, a: seq<bv8>, b: seq<bv8> | |a| == m && |b| == n ensures Streams(reg, a, b) {
      ConsumedJoin(a, b);
      StreamsByOrder(reg, a, b);
    }
  }

  /** Chunks of m and of n bytes may be fed one after the other, for every register and all
      data, exactly when one of them is empty, or both are consumed in order and so is the
      whole: one byte or more than 8 each, more than 8 together. */
  lemma StreamsExactly(m: nat, n: nat)
    ensures LengthsStream(m, n) <==> m == 0 || n == 0 || (m + n > 8 && InOrder(m) && InOrder(n))
  {
    if m == 0 || n == 0 || (m + n > 8 && InOrder(m) && InOrder(n)) {
      StreamsInOrder(m, n);
    } else if m + n > 8 {
      if InOrder(m) {
        SecondTurned(m, n);
      } else {
        FirstTurned(m, n);
      }
    } else if m <= 3 {
      SecondMoved(m, n);
    } else if n <= 3 {
      FirstMoved(m, n);
    } else {
      FourAndFour();
    }
  }
}
