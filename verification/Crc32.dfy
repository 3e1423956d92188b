// crc32_update: slice-by-8 over the table of crc32.h, refining the bit register.

module Crc32 {
  import opened Iteration
  import opened Bytes
  import opened CrcSpec

  // ---- the table: eight 256-entry slices, one after the other ----

  function At(t: seq<bv32>, k: nat, b: bv8): bv32
    requires |t| == 2048 && k < 8
  {
    t[256 * k + b as int]
  }

  function ByteSteps(b: bv8): bv32 {
    Steps(8, b as bv32)
  }

  /** Entry m of the first slice: the byte m through the register. */
  function ByteEntry(m: int): bv32
    requires 0 <= m < 256
  {
    ByteSteps(m as bv8)
  }

  /** An entry moved on by one more byte, by the entry of its low byte in the first slice. */
  function NextEntry(entry: bv32): bv32 {
    Xor(entry >> 8, ByteEntry(Low(entry) as int))
  }

  /** The first slice is one byte through the register; each further slice is the
      slice before it, moved on by one byte. */
  ghost predicate IsCrcTable(t: seq<bv32>) {
    && |t| == 2048
    && (forall m :: 0 <= m < 256 ==> t[m] == ByteEntry(m))
    && (forall m :: 256 <= m < 2048 ==> t[m] == NextEntry(t[m - 256]))
  }

  lemma ByteOfIndex(b: bv8)
    ensures (b as int) as bv8 == b
  {
  }

  lemma LowAsWord(w: bv32)
    ensures Low(w) as bv32 == w & 0xFF
  {
  }

  lemma XorSwap(a: bv32, b: bv32)
    ensures Xor(a, b) == Xor(b, a)
  {
  }

  /** Entry b of slice k is the byte b after 8(k + 1) shifts. */
  lemma {:induction false} SliceMeaning(t: seq<bv32>, k: nat, b: bv8)
    requires IsCrcTable(t) && k < 8
    ensures At(t, k, b) == Steps(8 * k + 8, b as bv32)
    decreases k
  {
    hide NextEntry, Steps;
    if k == 0 {
      FirstSliceMeaning(b);
    } else {
      SliceMeaning(t, k - 1, b);
      var prev := At(t, k - 1, b);
      assert At(t, k, b) == NextEntry(prev);
      NextEntryMeaning(prev);
      StepsSplit(8 * (k - 1) + 8, 8, b as bv32);
    }
  }

  lemma FirstSliceMeaning(b: bv8)
    ensures ByteEntry(b as int) == ByteSteps(b)
  {
    hide ByteSteps;
    ByteOfIndex(b);
  }

  lemma NextEntryMeaning(entry: bv32)
    ensures NextEntry(entry) == Steps(8, entry)
  {
    hide Xor, Low, Steps, ByteEntry;
    FirstSliceMeaning(Low(entry));
    LowAsWord(entry);
    XorSwap(entry >> 8, Steps(8, entry & 0xFF));
    StepsByLookup(entry);
  }

  // ---- one byte by lookup ----

  lemma LookupKey(r: bv32, d: bv8)
    ensures ((Low(r) ^ d) as bv32) == Xor(r, d as bv32) & 0xFF
    ensures r >> 8 == Xor(r, d as bv32) >> 8
  {
  }

  /** The bytewise tail of the routine feeds one byte. */
  lemma LookupFeeds(t: seq<bv32>, r: bv32, d: bv8)
    requires IsCrcTable(t)
    ensures Xor(r >> 8, At(t, 0, Low(r) ^ d)) == Feed(r, d)
  {
    hide Xor, Steps, Low;
    LookupKey(r, d);
    SliceMeaning(t, 0, Low(r) ^ d);
    StepsByLookup(Xor(r, d as bv32));
    XorSwap(r >> 8, At(t, 0, Low(r) ^ d));
  }

  // ---- eight bytes by eight lookups ----

  /** Steps of a word: its low byte, and the rest one byte lower and eight steps later. */
  lemma PeelByte(n: nat, w: bv32)
    ensures Steps(8 + n, w) == Xor(Steps(8 + n, Low(w) as bv32), Steps(n, Down(w)))
  {
    hide Xor, Steps, Low;
    LowAsWord(w);
    StepsByLookup(w);
    StepsSplit(8, n, w);
    StepsSplit(8, n, w & 0xFF);
    StepsLinear(n, Steps(8, w & 0xFF), w >> 8);
  }

  lemma PeelThree(n: nat, w: bv32)
    ensures Steps(32 + n, w) ==
            Xor(Steps(32 + n, Low(w) as bv32), Xor(Steps(24 + n, Low(Down(w)) as bv32),
            Xor(Steps(16 + n, Low(Down(Down(w))) as bv32), Steps(8 + n, Down(Down(Down(w)))))))
  {
    hide Xor, Steps, Low, Down;
    PeelByte(24 + n, w);
    PeelByte(16 + n, Down(w));
    PeelByte(8 + n, Down(Down(w)));
  }

  lemma NextByte(w: bv32)
    ensures Down(w) == w >> 8 && Down(Down(w)) == w >> 16
    ensures Down(Down(Down(w))) == Low(w >> 24) as bv32
  {
  }

  lemma PeelWord(n: nat, w: bv32)
    ensures Steps(32 + n, w) ==
            Xor(Steps(32 + n, Low(w) as bv32), Xor(Steps(24 + n, Low(w >> 8) as bv32),
            Xor(Steps(16 + n, Low(w >> 16) as bv32), Steps(8 + n, Low(w >> 24) as bv32))))
  {
    hide Xor, Steps, Low, Down;
    PeelThree(n, w);
    NextByte(w);
  }

  /** The eight lookups of one round, combined as the routine combines them. */
  function EightLookups(t: seq<bv32>, one: bv32, two: bv32): bv32
    requires |t| == 2048
  {
    Xor(Xor(Xor(Xor(Xor(Xor(Xor(
      At(t, 7, Low(one)), At(t, 6, Low(one >> 8))), At(t, 5, Low(one >> 16))), At(t, 4, Low(one >> 24))),
      At(t, 3, Low(two))), At(t, 2, Low(two >> 8))), At(t, 1, Low(two >> 16))), At(t, 0, Low(two >> 24)))
  }

  /** The same combination of the steps the looked-up entries stand for. */
  function EightSteps(one: bv32, two: bv32): bv32 {
    Xor(Xor(Xor(Xor(Xor(Xor(Xor(
      Steps(64, Low(one) as bv32), Steps(56, Low(one >> 8) as bv32)),
      Steps(48, Low(one >> 16) as bv32)), Steps(40, Low(one >> 24) as bv32)),
      Steps(32, Low(two) as bv32)), Steps(24, Low(two >> 8) as bv32)),
      Steps(16, Low(two >> 16) as bv32)), Steps(8, Low(two >> 24) as bv32))
  }

  lemma LookupsAreSteps(t: seq<bv32>, one: bv32, two: bv32)
    requires IsCrcTable(t)
    ensures EightLookups(t, one, two) == EightSteps(one, two)
  {
    hide Xor, Steps, At, Low, IsCrcTable;
    SliceMeaning(t, 7, Low(one));
    SliceMeaning(t, 6, Low(one >> 8));
    SliceMeaning(t, 5, Low(one >> 16));
    SliceMeaning(t, 4, Low(one >> 24));
    SliceMeaning(t, 3, Low(two));
    SliceMeaning(t, 2, Low(two >> 8));
    SliceMeaning(t, 1, Low(two >> 16));
    SliceMeaning(t, 0, Low(two >> 24));
  }

  lemma Regroup(a: bv32, b: bv32, c: bv32, d: bv32, e: bv32, f: bv32, g: bv32, h: bv32)
    ensures Xor(Xor(a, Xor(b, Xor(c, d))), Xor(e, Xor(f, Xor(g, h))))
         == Xor(Xor(Xor(Xor(Xor(Xor(Xor(a, b), c), d), e), f), g), h)
  {
    hide Xor;
    var l := Xor(Xor(Xor(a, b), c), d);
    XorAssoc(b, c, d);
    XorAssoc(a, Xor(b, c), d);
    XorAssoc(a, b, c);
    XorAssoc(l, e, Xor(f, Xor(g, h)));
    XorAssoc(Xor(l, e), f, Xor(g, h));
    XorAssoc(Xor(Xor(l, e), f), g, h);
  }

  lemma EightStepsOfWords(one: bv32, two: bv32)
    ensures EightSteps(one, two) == Xor(Steps(64, one), Steps(32, two))
  {
    hide Xor, Steps, Low;
    PeelWord(32, one);
    PeelWord(0, two);
    Regroup(Steps(64, Low(one) as bv32), Steps(56, Low(one >> 8) as bv32),
            Steps(48, Low(one >> 16) as bv32), Steps(40, Low(one >> 24) as bv32),
            Steps(32, Low(two) as bv32), Steps(24, Low(two >> 8) as bv32),
            Steps(16, Low(two >> 16) as bv32), Steps(8, Low(two >> 24) as bv32));
  }

  /** One round of slice-by-8 is the reference CRC of eight bytes. */
  lemma EightLookupsFeed(t: seq<bv32>, r: bv32, x: seq<bv8>)
    requires IsCrcTable(t) && |x| == 8
    ensures EightLookups(t, Xor(Word(x[..4]), r), Word(x[4..])) == Crc(r, x)
  {
    hide Xor, Steps, EightLookups, EightSteps, Word;
    var v, w := Word(x[..4]), Word(x[4..]);
    XorSwap(v, r);
    LookupsAreSteps(t, Xor(r, v), w);
    EightStepsOfWords(Xor(r, v), w);
    assert x == x[..4] + x[4..];
    FoldConcat(Feed, r, x[..4], x[4..]);
    CrcOfWord(r, x[..4]);
    CrcOfWord(Crc(r, x[..4]), x[4..]);
    StepsLinear(32, Steps(32, Xor(r, v)), w);
    StepsSplit(32, 32, Xor(r, v));
  }

  // ---- word loads ----

  /** A 32-bit load on a little-endian machine. */
  function LoadLe(data: seq<bv8>, at: nat): bv32
    requires at + 4 <= |data|
  {
    Le32(data[at], data[at + 1], data[at + 2], data[at + 3])
  }

  lemma FourBytes(a: bv8, b: bv8, c: bv8, d: bv8)
    ensures Le32(a, b, c, d) == PutLow(a, PutLow(b, PutLow(c, PutLow(d, 0))))
  {
  }

  lemma SwabbedBytes(a: bv8, b: bv8, c: bv8, d: bv8)
    ensures Swab32((a as bv32) | ((b as bv32) << 8) | ((c as bv32) << 16) | ((d as bv32) << 24))
         == PutLow(d, PutLow(c, PutLow(b, PutLow(a, 0))))
  {
  }

  lemma SwabFourBytes(a: bv8, b: bv8, c: bv8, d: bv8)
    ensures Swab32(Le32(a, b, c, d)) == PutLow(d, PutLow(c, PutLow(b, PutLow(a, 0))))
  {
    hide Swab32, PutLow;
    SwabbedBytes(a, b, c, d);
  }

  lemma WordOfFour(a: bv8, b: bv8, c: bv8, d: bv8)
    ensures Word([a, b, c, d]) == PutLow(a, PutLow(b, PutLow(c, PutLow(d, 0))))
  {
    assert [a, b, c, d][1..] == [b, c, d] && [b, c, d][1..] == [c, d] && [c, d][1..] == [d];
    assert Assemble(PutLow, 0, [d]) == PutLow(d, 0);
    assert Assemble(PutLow, 0, [c, d]) == PutLow(c, PutLow(d, 0));
    assert Assemble(PutLow, 0, [b, c, d]) == PutLow(b, PutLow(c, PutLow(d, 0)));
  }

  lemma LoadIsWord(data: seq<bv8>, at: nat)
    requires at + 4 <= |data|
    ensures LoadLe(data, at) == Word(data[at..at + 4])
  {
    hide Word, PutLow, Le32;
    FourBytes(data[at], data[at + 1], data[at + 2], data[at + 3]);
    WordOfFour(data[at], data[at + 1], data[at + 2], data[at + 3]);
    assert data[at..at + 4] == [data[at], data[at + 1], data[at + 2], data[at + 3]];
  }

  lemma SwabbedLoadIsWord(data: seq<bv8>, at: nat)
    requires at + 4 <= |data|
    ensures Swab32(LoadLe(data, at)) == Word([data[at + 3], data[at + 2], data[at + 1], data[at]])
  {
    hide Word, PutLow, Swab32, Le32;
    SwabFourBytes(data[at], data[at + 1], data[at + 2], data[at + 3]);
    WordOfFour(data[at + 3], data[at + 2], data[at + 1], data[at]);
  }

  // ---- the routines ----

  lemma {:induction false} CrcSnoc(r: bv32, data: seq<bv8>, k: nat)
    requires k < |data|
    ensures Crc(r, data[..k + 1]) == Feed(Crc(r, data[..k]), data[k])
  {
    assert data[..k + 1] == data[..k] + [data[k]];
    FoldConcat(Feed, r, data[..k], [data[k]]);
    var s := Crc(r, data[..k]);
    assert Crc(s, [data[k]]) == Feed(s, data[k]);
  }

  lemma CrcEmpty(r: bv32)
    ensures Crc(r, []) == r
  {
  }

  lemma CrcNext8(r: bv32, data: seq<bv8>, k: nat)
    requires k + 8 <= |data|
    ensures Crc(r, data[..k + 8]) == Crc(Crc(r, data[..k]), data[k..k + 8])
  {
    assert data[..k + 8] == data[..k] + data[k..k + 8];
    FoldConcat(Feed, r, data[..k], data[k..k + 8]);
  }

  /** A round over eight bytes in order. */
  lemma RoundInOrder(t: seq<bv32>, reg: bv32, r: bv32, data: seq<bv8>, k: nat)
    requires IsCrcTable(t) && k + 8 <= |data| && r == Crc(reg, data[..k])
    ensures EightLookups(t, Xor(LoadLe(data, k), r), LoadLe(data, k + 4)) == Crc(reg, data[..k + 8])
  {
    hide Xor, EightLookups, LoadLe, Word;
    LoadIsWord(data, k);
    LoadIsWord(data, k + 4);
    var x := data[k..k + 8];
    assert x[..4] == data[k..k + 4] && x[4..] == data[k + 4..k + 8];
    CrcNext8(reg, data, k);
    EightLookupsFeed(t, r, x);
  }

  lemma ReverseEight(data: seq<bv8>)
    requires |data| == 8
    ensures Reverse(data)[..4] == [data[7], data[6], data[5], data[4]]
    ensures Reverse(data)[4..] == [data[3], data[2], data[1], data[0]]
  {
  }

  /** The single round over exactly eight bytes, with both words byte-swapped. */
  lemma RoundReversed(t: seq<bv32>, r: bv32, data: seq<bv8>)
    requires IsCrcTable(t) && |data| == 8
    ensures EightLookups(t, Xor(Swab32(LoadLe(data, 4)), r), Swab32(LoadLe(data, 0))) == Crc(r, Reverse(data))
  {
    hide Xor, EightLookups, LoadLe, Word, Swab32;
    SwabbedLoadIsWord(data, 4);
    SwabbedLoadIsWord(data, 0);
    ReverseEight(data);
    EightLookupsFeed(t, r, Reverse(data));
  }

  /** The slice-by-8 loop; `tmp` counts the bytes it consumed. */
  method SliceRounds(reg: bv32, data: seq<bv8>, table: seq<bv32>) returns (r: bv32, current: int, tmp: nat)
    requires |data| < 0x1_0000
    requires IsCrcTable(table)
    ensures |data| < 8 ==> tmp == 0
    ensures |data| - 8 < tmp <= |data| && (|data| == 8 ==> tmp == 8)
    ensures |data| != 8 ==> current == tmp
    ensures r == Crc(reg, Consumed(data)[..tmp])
  {
    hide Xor, Steps, EightLookups, LoadLe, Swab32;
    var size := |data|;
    current, tmp, r := 0, 0, reg;
    var i := size;
    while i >= 8
      invariant 0 <= i <= size && tmp == size - i
      invariant size < 8 ==> tmp == 0
      invariant size == 8 ==> tmp == 0 || tmp == 8
      invariant size != 8 ==> current == tmp
      invariant r == Crc(reg, Consumed(data)[..tmp])
    {
      var one, two;
      if size == 8 {
        current := 4;
        one := Xor(Swab32(LoadLe(data, current)), r);
        current := current - 4;
        two := Swab32(LoadLe(data, current));
        current := current - 4;
        RoundReversed(table, reg, data);
        assert Consumed(data)[..8] == Reverse(data);
      } else {
        one := Xor(LoadLe(data, current), r);
        current := current + 4;
        two := LoadLe(data, current);
        current := current + 4;
        RoundInOrder(table, reg, r, data, tmp);
      }
      r := EightLookups(table, one, two);
      tmp := tmp + 8;
      i := i - 8;
    }
  }

  /** One lookup for one byte. */
  method LookupByte(r0: bv32, d: bv8, table: seq<bv32>) returns (r: bv32)
    requires IsCrcTable(table)
    ensures r == Feed(r0, d)
  {
    hide Xor, Steps;
    LookupFeeds(table, r0, d);
    r := Xor(r0 >> 8, At(table, 0, Low(r0) ^ d));
  }

  /** The bytewise tail, walking down from the last byte or up from the first unread one. */
  method BytewiseTail(reg: bv32, r0: bv32, data: seq<bv8>, table: seq<bv32>, current: int, tmp: nat)
    returns (r: bv32)
    requires IsCrcTable(table)
    requires |data| < 8 ==> tmp == 0 && current == 0
    requires tmp <= |data|
    requires |data| != 8 ==> current == tmp
    requires |data| == 8 ==> tmp == 8
    requires r0 == Crc(reg, Consumed(data)[..tmp])
    ensures r == Crc(reg, Consumed(data))
  {
    hide Feed, Crc, IsCrcTable;
    var size := |data|;
    var down := size < 8;
    var currentChar := if down then current + size - 1 else current;
    r := r0;
    var i := tmp;
    while i < size
      invariant tmp <= i <= size
      invariant size != 8 ==> currentChar == if down then size - 1 - i else i
      invariant r == Crc(reg, Consumed(data)[..i])
    {
      var d := data[currentChar];
      assert d == Consumed(data)[i];
      CrcSnoc(reg, Consumed(data), i);
      r := LookupByte(r, d, table);
      currentChar := if down then currentChar - 1 else currentChar + 1;
      i := i + 1;
    }
    assert Consumed(data)[..size] == Consumed(data);
  }

  /** crc32_update: `poly` is accepted and ignored, the table fixes the polynomial. */
  method Crc32Update(reg: bv32, data: seq<bv8>, poly: bv32, table: seq<bv32>) returns (r: bv32)
    requires |data| < 0x1_0000
    requires IsCrcTable(table)
    ensures r == Crc(reg, Consumed(data))
  {
    var current, tmp;
    r, current, tmp := SliceRounds(reg, data, table);
    r := BytewiseTail(reg, r, data, table, current, tmp);
  }

  /** crc32_finalize */
  function Crc32Finalize(reg: bv32): bv32 {
    reg ^ 0xFFFFFFFF
  }

  /** Two inputs of one length that differ only inside four consecutive bytes leave
      different registers, whatever the register was before. */
  lemma UpdateDetectsBursts(reg: bv32, a: seq<bv8>, b: seq<bv8>, i: nat)
    requires DifferWithin(a, b, i, 4) && a != b
    ensures Crc(reg, Consumed(a)) != Crc(reg, Consumed(b))
  {
    var k := ConsumedBurst(a, b, i, 4);
    BurstDetected(reg, Consumed(a), Consumed(b), k);
  }

  /** Streaming: chunks of more than 8 bytes may be fed one after the other. */
  lemma UpdateStreams(reg: bv32, a: seq<bv8>, b: seq<bv8>)
    requires |a| > 8 && |b| > 8
    ensures Crc(Crc(reg, Consumed(a)), Consumed(b)) == Crc(reg, Consumed(a + b))
  {
    FoldConcat(Feed, reg, a, b);
  }

  /** The update is a bijection of registers for every data. */
  lemma UpdateBijective(data: seq<bv8>, after: bv32) returns (before: bv32)
    ensures Crc(before, Consumed(data)) == after
    ensures forall r :: Crc(r, Consumed(data)) == after ==> r == before
  {
    var d := Consumed(data);
    before := Unfold(Unfeed, after, d);
    CrcBijective(after, d);
    forall r | Crc(r, d) == after
      ensures r == before
    {
      CrcBijective(r, d);
    }
  }

  // ---- building the table ----

  /** Builds the eight slices: the first bit by bit, the others by lookup. */
  method BuildTable() returns (t: seq<bv32>)
    ensures IsCrcTable(t)
  {
    hide ByteEntry, NextEntry;
    t := [];
    for m := 0 to 256
      invariant |t| == m
      invariant forall j :: 0 <= j < m ==> t[j] == ByteEntry(j)
    {
      var entry := BitByBit(m);
      t := t + [entry];
    }
    for m := 256 to 2048
      invariant |t| == m
      invariant forall j :: 0 <= j < 256 ==> t[j] == ByteEntry(j)
      invariant forall j :: 256 <= j < m ==> t[j] == NextEntry(t[j - 256])
    {
      var next := LookupNext(t, t[m - 256]);
      t := t + [next];
    }
  }

  method LookupNext(t: seq<bv32>, entry: bv32) returns (next: bv32)
    requires 256 <= |t| && forall j :: 0 <= j < 256 ==> t[j] == ByteEntry(j)
    ensures next == NextEntry(entry)
  {
    hide ByteEntry, Low, Xor;
    next := Xor(entry >> 8, t[Low(entry) as int]);
  }

  method BitByBit(m: int) returns (r: bv32)
    requires 0 <= m < 256
    ensures r == ByteEntry(m)
  {
    hide Step;
    var b := m as bv8;
    r := b as bv32;
    for bit := 0 to 8
      invariant r == Steps(bit, b as bv32)
    {
      StepsSplit(bit, 1, b as bv32);
      r := Step(r);
    }
  }
}
