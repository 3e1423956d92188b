// What 32-bit words mean as numbers: addition and subtraction wrap around modulo 2^32, and a
// number in a word is laid out in base 256, most significant byte first.

module WordArithmetic {
  import opened Bytes
  import opened WireFormat

  const WORDS := 0x1_0000_0000

  /** 32-bit arithmetic wraps around. */
  function Plus(a: bv32, b: bv32): bv32 {
    a + b
  }

  function Minus(a: bv32, b: bv32): bv32 {
    a - b
  }

  function Value(x: bv32): int {
    x as int
  }

  // ---- words under addition ----

  lemma PlusIs(a: bv32, b: bv32)
    ensures Plus(a, b) == a + b
  {
  }

  lemma PlusZero(a: bv32)
    ensures Plus(a, 0) == a && Plus(0, a) == a
  {
  }

  lemma PlusSwap(a: bv32, b: bv32)
    ensures Plus(a, b) == Plus(b, a)
  {
  }

  lemma PlusSums(a: bv32, b: bv32, c: bv32)
    ensures Plus(a + b, c) == Plus(a, b + c)
  {
  }

  lemma PlusAssoc(a: bv32, b: bv32, c: bv32)
    ensures Plus(Plus(a, b), c) == Plus(a, Plus(b, c))
  {
    hide Plus;
    PlusIs(a, b);
    PlusIs(b, c);
    PlusSums(a, b, c);
  }

  lemma PlusPairs(a: bv32, b: bv32, c: bv32, d: bv32)
    ensures Plus(Plus(a, b), Plus(c, d)) == Plus(Plus(a, c), Plus(b, d))
  {
    hide Plus;
    PlusAssoc(a, b, Plus(c, d));
    PlusAssoc(b, c, d);
    PlusSwap(b, c);
    PlusAssoc(c, b, d);
    PlusAssoc(a, c, Plus(b, d));
  }

  // ---- the word of a number, built bit by bit ----

  function Double(a: bv32, odd: bool): bv32 {
    if odd then Plus(Plus(a, a), 1) else Plus(a, a)
  }

  /** The bits of n modulo 2^32. */
  function WordOf(n: nat): bv32 {
    if n == 0 then 0 else Double(WordOf(n / 2), n % 2 == 1)
  }

  /** Adding doubled words: two odd ones carry. */
  lemma PlusDoubled(a: bv32, b: bv32, p: bool, q: bool)
    ensures Plus(Double(a, p), Double(b, q)) ==
            if p && q then Double(Plus(a, Plus(b, 1)), false) else Double(Plus(a, b), p || q)
  {
    hide Plus;
    var u, v := Plus(a, a), Plus(b, b);
    PlusPairs(a, a, b, b);
    if p && q {
      PlusPairs(u, 1, v, 1);
      PlusAssoc(u, v, Plus(1, 1));
      PlusPairs(b, b, 1, 1);
      PlusPairs(a, a, Plus(b, 1), Plus(b, 1));
    } else if p {
      PlusAssoc(u, 1, v);
      PlusSwap(1, v);
      PlusAssoc(u, v, 1);
    } else if q {
      PlusAssoc(u, v, 1);
    }
  }

  lemma WordOfOne()
    ensures WordOf(1) == 1
  {
    assert WordOf(0) == 0;
  }

  /** Addition of words is addition of numbers. */
  lemma {:induction false} WordOfSum(m: nat, n: nat)
    ensures WordOf(m + n) == Plus(WordOf(m), WordOf(n))
    decreases m + n
  {
    hide Plus, Double;
    if m == 0 {
      PlusZero(WordOf(n));
    } else if n == 0 {
      PlusZero(WordOf(m));
    } else {
      PlusDoubled(WordOf(m / 2), WordOf(n / 2), m % 2 == 1, n % 2 == 1);
      if m % 2 == 1 && n % 2 == 1 {
        assert (m + n) / 2 == m / 2 + (n / 2 + 1) && (m + n) % 2 == 0;
        WordOfSum(m / 2, n / 2 + 1);
        WordOfSum(n / 2, 1);
        WordOfOne();
      } else {
        assert (m + n) / 2 == m / 2 + n / 2 && ((m + n) % 2 == 1 <==> m % 2 == 1 || n % 2 == 1);
        WordOfSum(m / 2, n / 2);
      }
    }
  }

  // ---- the number of a word ----

  lemma OneBitMore(h: bv31, b: bv1)
    ensures (((h as bv32) << 1) | (b as bv32)) as int == 2 * (h as int) + b as int
  {
  }

  lemma OneBit(b: bv1)
    ensures b as int == if b == 1 then 1 else 0
  {
  }

  function Shifted(h: bv31, b: bv1): bv32 {
    ((h as bv32) << 1) | (b as bv32)
  }

  lemma TwiceBits(h: bv31)
    ensures Plus(h as bv32, h as bv32) == Shifted(h, 0)
    ensures Plus(Shifted(h, 0), 1) == Shifted(h, 1)
  {
  }

  lemma ShiftedValue(h: bv31, b: bv1)
    ensures Value(Shifted(h, b)) == 2 * (h as int) + b as int
  {
    OneBitMore(h, b);
  }

  lemma DoubledBits(h: bv31, odd: bool)
    ensures Double(h as bv32, odd) == Shifted(h, if odd then 1 else 0)
  {
    hide Plus, Shifted;
    TwiceBits(h);
  }

  lemma Extended(h: bv31)
    ensures (h as bv32) as int == h as int
  {
  }

  lemma TopBit(h: bv31)
    ensures (0x8000_0000 | (h as bv32)) as int == 0x8000_0000 + h as int
  {
  }

  lemma LowPart(x: bv32)
    ensures x == ((x & 0x7FFF_FFFF) as bv31) as bv32 || x == 0x8000_0000 | (((x & 0x7FFF_FFFF) as bv31) as bv32)
  {
  }

  lemma ValueInverse(x: bv32)
    ensures 0 <= Value(x) < WORDS && (Value(x) as bv32) == x
  {
  }

  lemma ValueInjective(x: bv32, y: bv32)
    requires Value(x) == Value(y)
    ensures x == y
  {
    ValueInverse(x);
    ValueInverse(y);
  }

  lemma SmallWord(x: bv32) returns (h: bv31)
    requires Value(x) < 0x8000_0000
    ensures x == h as bv32 && h as int == Value(x)
  {
    LowPart(x);
    h := (x & 0x7FFF_FFFF) as bv31;
    TopBit(h);
    Extended(h);
  }

  /** The word of a number below 2^32 has that value. */
  lemma {:induction false} WordOfValue(n: nat)
    requires n < WORDS
    ensures Value(WordOf(n)) == n
  {
    hide Value, Double, Shifted;
    if n == 0 {
      ZeroValue();
    } else {
      WordOfValue(n / 2);
      var h := SmallWord(WordOf(n / 2));
      DoubledBits(h, n % 2 == 1);
      OneBit(if n % 2 == 1 then 1 else 0);
      ShiftedValue(h, if n % 2 == 1 then 1 else 0);
    }
  }

  lemma ZeroValue()
    ensures Value(0) == 0 && Value(0x8000_0000) == 0x8000_0000
  {
  }

  /** And every word is the word of its value. */
  lemma WordOfInverse(x: bv32)
    ensures 0 <= Value(x) < WORDS && WordOf(Value(x)) == x
  {
    hide Value;
    ValueInverse(x);
    WordOfValue(Value(x));
    ValueInjective(WordOf(Value(x)), x);
  }

  /** A number below 2^32 converted to a word is that word. */
  lemma ConvertedValue(n: nat)
    requires n < WORDS
    ensures n as bv32 == WordOf(n) && Value(n as bv32) == n
  {
    hide Value, WordOf;
    WordOfValue(n);
    ValueInverse(WordOf(n));
  }

  lemma TopDoubled()
    ensures Plus(0x8000_0000, 0x8000_0000) == 0
  {
  }

  lemma WordOfTop()
    ensures WordOf(WORDS) == 0
  {
    hide Plus, Value;
    ZeroValue();
    WordOfInverse(0x8000_0000);
    TopDoubled();
    assert WORDS / 2 == 0x8000_0000 && WORDS % 2 == 0;
  }

  lemma WordOfWraps(n: nat)
    ensures WordOf(n + WORDS) == WordOf(n)
  {
    hide Plus;
    WordOfTop();
    WordOfSum(n, WORDS);
    PlusZero(WordOf(n));
  }

  /** Addition is addition modulo 2^32. */
  lemma PlusValue(x: bv32, y: bv32)
    ensures Value(Plus(x, y)) == (Value(x) + Value(y)) % WORDS
  {
    hide Plus, Value, WordOf;
    WordOfInverse(x);
    WordOfInverse(y);
    var n := Value(x) + Value(y);
    WordOfSum(Value(x), Value(y));
    if n < WORDS {
      WordOfValue(n);
    } else {
      WordOfWraps(n - WORDS);
      WordOfValue(n - WORDS);
    }
  }

  lemma MinusIs(a: bv32, b: bv32)
    ensures Minus(a, b) == a - b
  {
  }

  lemma DifferencePlus(x: bv32, y: bv32)
    ensures Plus(x - y, y) == x
  {
  }

  lemma MinusThenPlus(x: bv32, y: bv32)
    ensures Plus(Minus(x, y), y) == x
  {
    hide Plus, Minus;
    MinusIs(x, y);
    DifferencePlus(x, y);
  }

  lemma SolveModulo(d: int, b: int, a: int)
    requires 0 <= a < WORDS && 0 <= b < WORDS && 0 <= d < WORDS
    requires a == (d + b) % WORDS
    ensures d == (a - b) % WORDS
  {
  }

  /** Subtraction is subtraction modulo 2^32. */
  lemma MinusValue(x: bv32, y: bv32)
    ensures Value(Minus(x, y)) == (Value(x) - Value(y)) % WORDS
  {
    hide Plus, Minus, Value, WordOf;
    MinusThenPlus(x, y);
    PlusValue(Minus(x, y), y);
    WordOfInverse(x);
    WordOfInverse(y);
    WordOfInverse(Minus(x, y));
    SolveModulo(Value(Minus(x, y)), Value(y), Value(x));
  }

  // ---- base 256 ----

  /** The number that bytes spell, most significant byte first. */
  function BigEndian(b: seq<bv8>): nat {
    if b == [] then 0 else 0x100 * BigEndian(b[..|b| - 1]) + b[|b| - 1] as int
  }

  lemma FourByteBits(a: bv8, b: bv8, c: bv8, d: bv8)
    ensures (((a as bv32) << 24) | ((b as bv32) << 16) | ((c as bv32) << 8) | (d as bv32)) as int
         == (a as int) * 0x100_0000 + (b as int) * 0x1_0000 + (c as int) * 0x100 + d as int
  {
  }

  lemma BigEndianNext(b: seq<bv8>, x: bv8)
    ensures BigEndian(b + [x]) == 0x100 * BigEndian(b) + x as int
  {
    assert (b + [x])[..|b|] == b;
  }

  lemma BigEndianOfTwo(a: bv8, b: bv8)
    ensures BigEndian([a, b]) == (a as int) * 0x100 + b as int
  {
    BigEndianNext([], a);
    BigEndianNext([a], b);
    assert [] + [a] == [a];
  }

  lemma BigEndianOfFour(a: bv8, b: bv8, c: bv8, d: bv8)
    ensures BigEndian([a, b, c, d]) ==
            (a as int) * 0x100_0000 + (b as int) * 0x1_0000 + (c as int) * 0x100 + d as int
  {
    hide BigEndian;
    BigEndianOfTwo(a, b);
    BigEndianNext([a, b], c);
    BigEndianNext([a, b, c], d);
    assert [a, b, c] == [a, b] + [c] && [a, b, c, d] == [a, b, c] + [d];
  }

  /** A row is its value in base 256. */
  lemma BigEndianOfRow(x: bv32)
    ensures BigEndian(Row(x)) == Value(x)
  {
    hide Row, Be32, Value;
    RowRoundTrip(x);
    var r := Row(x);
    assert r == [r[0], r[1], r[2], r[3]];
    BigEndianOfFour(r[0], r[1], r[2], r[3]);
    FourByteValue(r[0], r[1], r[2], r[3]);
  }

  lemma FourByteValue(a: bv8, b: bv8, c: bv8, d: bv8)
    ensures Value(Be32(a, b, c, d)) ==
            (a as int) * 0x100_0000 + (b as int) * 0x1_0000 + (c as int) * 0x100 + d as int
  {
    hide Be32, Value;
    Be32Is(a, b, c, d);
    FourByteBits(a, b, c, d);
    ValueIs(Be32(a, b, c, d));
  }

  lemma ValueIs(x: bv32)
    ensures Value(x) == x as int
  {
  }

  lemma Be32Is(a: bv8, b: bv8, c: bv8, d: bv8)
    ensures Be32(a, b, c, d) == (((a as bv32) << 24) | ((b as bv32) << 16) | ((c as bv32) << 8) | (d as bv32))
  {
  }
}
