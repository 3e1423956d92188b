// The checksum of an IPv4 header: its 16-bit words, the checksum from scratch and
// the incremental TTL update, and how the two relate.

module InternetHeader {
  import opened Checksum
  import opened Bytes
  import opened WireFormat

  /** Words 0 to 4 of the header, in wire order; word 5 is the checksum. */
  function WordsBefore(h: Ipv4): (r: seq<u16>)
    ensures |r| == 4
  {
    [Val16(HighHalf(Ipv4Row0(h))), Val16(LowHalf(Ipv4Row0(h))),
     Val16(HighHalf(Ipv4Row1(h))), Val16(LowHalf(Ipv4Row1(h)))]
  }

  /** The word of ttl and protocol. */
  function TtlWord(h: Ipv4): u16 {
    Val16(Be16(h.ttl, h.protocol))
  }

  function WordsAfter(h: Ipv4): (r: seq<u16>)
    ensures |r| == 4
  {
    [Val16(HighHalf(h.srcAddr)), Val16(LowHalf(h.srcAddr)),
     Val16(HighHalf(h.dstAddr)), Val16(LowHalf(h.dstAddr))]
  }

  /** All ten words as they stand on the wire. */
  function HeaderWords(h: Ipv4): seq<u16> {
    WordsBefore(h) + [TtlWord(h)] + [Val16(h.hdrChecksum)] + WordsAfter(h)
  }

  /** The checksum of the P4 extern: the complement of the end-around-carry sum of
      every word but the checksum itself. */
  function ComputedChecksum(h: Ipv4): bv16 {
    Word16(Not16(EndAroundCarry(Sum(WordsBefore(h) + [TtlWord(h)] + WordsAfter(h)))))
  }

  function WithChecksum(h: Ipv4): Ipv4 {
    h.(hdrChecksum := ComputedChecksum(h))
  }

  /** ip_ttl_dec: equation 3 of RFC 1624 with m the old and m' the new ttl word. */
  function TtlDecremented(h: Ipv4): Ipv4 {
    var lower := h.(ttl := h.ttl + 255);
    var sum := EndAroundCarry(Not16(Val16(h.hdrChecksum)) + Not16(TtlWord(h)) + TtlWord(lower));
    lower.(hdrChecksum := Word16(Not16(sum)))
  }

  /** The header one ttl lower, with its checksum computed from scratch. */
  function Recomputed(h: Ipv4): Ipv4 {
    WithChecksum(h.(ttl := h.ttl + 255))
  }

  lemma ComputedIsFull(h: Ipv4)
    ensures Val16(ComputedChecksum(h)) == FullChecksum(WordsBefore(h) + [TtlWord(h)] + WordsAfter(h))
  {
    hide WordsBefore, TtlWord, WordsAfter, Val16, Word16;
    var words := WordsBefore(h) + [TtlWord(h)] + WordsAfter(h);
    FoldIsInternetSum(words);
    Word16Value(Not16(EndAroundCarry(Sum(words))));
  }

  lemma DecrementIsIncremental(h: Ipv4)
    ensures Val16(TtlDecremented(h).hdrChecksum)
         == IncrementalChecksum(Val16(h.hdrChecksum), TtlWord(h), TtlWord(TtlDecremented(h)))
  {
    hide Val16, Word16;
    var lower := h.(ttl := h.ttl + 255);
    assert TtlWord(TtlDecremented(h)) == TtlWord(lower);
    var s := Not16(Val16(h.hdrChecksum)) + Not16(TtlWord(h)) + TtlWord(lower);
    hide TtlWord;
    EndAroundCarryIsNorm(s);
    IncrementalIsNorm(Val16(h.hdrChecksum), TtlWord(h), TtlWord(lower));
    Word16Value(Not16(EndAroundCarry(s)));
  }

  /** A header with a freshly computed checksum sums to 0xFFFF over its ten words. */
  lemma ComputedVerifies(h: Ipv4)
    ensures Verifies(HeaderWords(WithChecksum(h)))
  {
    hide Val16, ComputedChecksum;
    var before, after := WordsBefore(h) + [TtlWord(h)], WordsAfter(h);
    OtherWords(h, h.ttl, ComputedChecksum(h));
    ComputedIsFull(h);
    FullChecksumVerifies(before, after);
  }

  lemma OtherRows(h: Ipv4, t: bv8, c: bv16)
    ensures var g := h.(ttl := t, hdrChecksum := c); Ipv4Row0(g) == Ipv4Row0(h) && Ipv4Row1(g) == Ipv4Row1(h)
  {
    hide PackRow0, PackRow1;
  }

  /** Changing ttl and checksum leaves the other eight words alone. */
  lemma OtherWords(h: Ipv4, t: bv8, c: bv16)
    ensures var g := h.(ttl := t, hdrChecksum := c); WordsBefore(g) == WordsBefore(h) && WordsAfter(g) == WordsAfter(h)
  {
    hide Val16, HighHalf, LowHalf, Ipv4Row0, Ipv4Row1;
    OtherRows(h, t, c);
  }

  // ---- incremental against recomputed ----

  lemma SumOfHeader(h: Ipv4)
    ensures Sum(HeaderWords(h)) == Sum(WordsBefore(h) + WordsAfter(h)) + TtlWord(h) + Val16(h.hdrChecksum)
  {
    hide WordsBefore, WordsAfter, TtlWord, Val16;
    var b, m, c, a := WordsBefore(h), [TtlWord(h)], [Val16(h.hdrChecksum)], WordsAfter(h);
    SumConcat(b + m + c, a);
    SumConcat(b + m, c);
    SumConcat(b, m);
    SumConcat(b, a);
    SumOfOne(TtlWord(h));
    SumOfOne(Val16(h.hdrChecksum));
  }

  lemma SumOfOne(w: u16)
    ensures Sum([w]) == w
  {
    assert [w][1..] == [];
  }

  lemma TtlWordValue(h: Ipv4)
    ensures TtlWord(h) == (h.ttl as int) * 0x100 + h.protocol as int
  {
    hide Val16, Be16;
    JoinValue(h.ttl, h.protocol);
  }

  lemma TtlValue(ttl: bv8)
    ensures (ttl + 255) as int == if ttl == 0 then 255 else ttl as int - 1
  {
  }

  lemma ByteBound(b: bv8)
    ensures 0 <= b as int < 256 && (b as int == 0 <==> b == 0) && (b as int == 1 <==> b == 1)
  {
  }

  /** Decrementing the ttl leaves exactly the checksum that recomputing would, if and only if the
      ten words sum to a multiple of 65535, unless ttl is 1, protocol is 0 and every other word is
      zero: a wrong checksum is never repaired. */
  lemma DecrementEqualsRecomputed(h: Ipv4)
    ensures TtlDecremented(h) == Recomputed(h) <==>
            Sum(HeaderWords(h)) % 0xFFFF == 0 &&
            !(h.ttl == 1 && h.protocol == 0 && Sum(WordsBefore(h) + WordsAfter(h)) == 0)
  {
    hide WordsBefore, WordsAfter, TtlWord, HeaderWords, Val16, ComputedChecksum, TtlDecremented, WithChecksum, Sum;
    var lower, g := h.(ttl := h.ttl + 255), TtlDecremented(h);
    var rest := WordsBefore(h) + WordsAfter(h);
    var hc, m, m' := Val16(h.hdrChecksum), TtlWord(h), TtlWord(g);
    HeadersDiffer(h);
    DecrementIsIncremental(h);
    ComputedIsFull(lower);
    OtherWords(h, lower.ttl, h.hdrChecksum);
    SumOfHeader(h);
    SumOfPair(rest, m, hc);
    IncrementalEqualsFull(rest, hc, m, m');
    Reordered(WordsBefore(h), TtlWord(lower), WordsAfter(h));
    NewTtlWord(h);
  }

  lemma HeadersDiffer(h: Ipv4)
    ensures var lower, g := h.(ttl := h.ttl + 255), TtlDecremented(h);
      TtlWord(g) == TtlWord(lower) &&
      (g == WithChecksum(lower) <==> Val16(g.hdrChecksum) == Val16(ComputedChecksum(lower)))
  {
    hide Val16, ComputedChecksum;
    if Val16(TtlDecremented(h).hdrChecksum) == Val16(ComputedChecksum(h.(ttl := h.ttl + 255))) {
      Val16Injective(TtlDecremented(h).hdrChecksum, ComputedChecksum(h.(ttl := h.ttl + 255)));
    }
  }

  lemma VerdictOfRest(h: Ipv4)
    ensures Verifies(HeaderWords(h)) <==>
            Verifies(WordsBefore(h) + WordsAfter(h) + [TtlWord(h), Val16(h.hdrChecksum)])
  {
    hide WordsBefore, WordsAfter, TtlWord, Val16;
    var rest, m, hc := WordsBefore(h) + WordsAfter(h), TtlWord(h), Val16(h.hdrChecksum);
    SumOfHeader(h);
    SumConcat(rest, [m, hc]);
    SumConcat([m], [hc]);
    assert [m] + [hc] == [m, hc];
    SumOfOne(m);
    SumOfOne(hc);
    VerifiesBySum(HeaderWords(h));
    VerifiesBySum(rest + [m, hc]);
  }

  lemma Reordered(before: seq<u16>, m: u16, after: seq<u16>)
    ensures FullChecksum(before + [m] + after) == FullChecksum(before + after + [m])
  {
    assert multiset(before + [m] + after) == multiset(before + after + [m]);
    FoldPermutation(0, before + [m] + after, before + after + [m]);
  }

  lemma NewTtlWord(h: Ipv4)
    ensures TtlWord(TtlDecremented(h)) == 0 <==> h.ttl == 1 && h.protocol == 0
    ensures h.ttl == 1 && h.protocol == 0 ==> TtlWord(h) == 0x100
  {
    hide TtlWord;
    TtlWordValue(h);
    TtlWordValue(TtlDecremented(h));
    TtlValue(h.ttl);
    ByteBound(h.ttl);
    ByteBound(h.protocol);
    ByteBound(h.ttl + 255);
  }

  lemma DecrementFrame(h: Ipv4)
    ensures var g := TtlDecremented(h);
      WordsBefore(g) == WordsBefore(h) && WordsAfter(g) == WordsAfter(h) &&
      g.ttl == h.ttl + 255 && g.protocol == h.protocol
  {
    var g := TtlDecremented(h);
    OtherWords(h, g.ttl, g.hdrChecksum);
  }

  /** The two headers whose verdict the decrement turns over: every word zero, which becomes
      valid, and ttl 1 with nothing else but its checksum, which becomes all zero. */
  predicate ZeroEdge(h: Ipv4) {
    Sum(WordsBefore(h) + WordsAfter(h)) == 0 && h.protocol == 0 &&
    ((h.ttl == 0 && h.hdrChecksum == 0) || (h.ttl == 1 && h.hdrChecksum == 0xFEFF))
  }

  /** Whether the header verifies survives the decrement, right or wrong, for every ttl and
      exactly outside those two. */
  lemma DecrementKeepsVerdict(h: Ipv4)
    ensures (Verifies(HeaderWords(TtlDecremented(h))) <==> Verifies(HeaderWords(h))) <==> !ZeroEdge(h)
  {
    hide WordsBefore, WordsAfter, TtlWord, HeaderWords, TtlDecremented, Val16, Sum, Verifies;
    var g, rest := TtlDecremented(h), WordsBefore(h) + WordsAfter(h);
    DecrementFrame(h);
    DecrementIsIncremental(h);
    VerdictOfRest(h);
    VerdictOfRest(g);
    IncrementalKeepsVerdict(rest, Val16(h.hdrChecksum), TtlWord(h), TtlWord(g));
    EdgeWords(h);
  }

  /** The edge in terms of the words that are summed. */
  lemma EdgeWords(h: Ipv4)
    ensures var m, m', hc := TtlWord(h), TtlWord(TtlDecremented(h)), Val16(h.hdrChecksum);
      (m == 0 && hc == 0 && m' > 0) || (m' == 0 && m + hc == 0xFFFF) <==>
      h.protocol == 0 && ((h.ttl == 0 && h.hdrChecksum == 0) || (h.ttl == 1 && h.hdrChecksum == 0xFEFF))
  {
    hide TtlWord, Val16;
    NewTtlWord(h);
    TtlWordValue(h);
    ByteBound(h.ttl);
    ByteBound(h.protocol);
    ChecksumIs(h.hdrChecksum);
  }

  lemma ChecksumIs(c: bv16)
    ensures Val16(c) == 0 <==> c == 0
    ensures Val16(c) == 0xFEFF <==> c == 0xFEFF
  {
    if Val16(c) == 0 {
      Val16Injective(c, 0);
    }
    if Val16(c) == 0xFEFF {
      Val16Injective(c, 0xFEFF);
    }
  }

  lemma TtlAboveOne(ttl: bv8)
    ensures ttl > 1 <==> ttl as int > 1
  {
  }

  /** A header with a version has a word that is not zero, so the exception cannot arise: for
      every ttl the update leaves the recomputed checksum exactly if the header verified. */
  lemma VersionedDecrement(h: Ipv4)
    requires h.version != 0
    ensures TtlDecremented(h) == Recomputed(h) <==> Verifies(HeaderWords(h))
  {
    hide Val16, HeaderWords, TtlDecremented, ComputedChecksum, WithChecksum, WordsBefore, WordsAfter, TtlWord, Sum;
    FirstWordNonzero(h);
    SumOfFirst(WordsBefore(h) + WordsAfter(h));
    SumOfHeader(h);
    VerifiesBySum(HeaderWords(h));
    DecrementEqualsRecomputed(h);
  }

  /** Above ttl 1, too, the exception cannot arise. */
  lemma GuardedDecrement(h: Ipv4)
    requires h.ttl > 1
    ensures TtlDecremented(h) == Recomputed(h) <==> Verifies(HeaderWords(h))
  {
    hide TtlWord, Val16, WordsBefore, WordsAfter, HeaderWords, Sum, TtlDecremented, Recomputed;
    SumOfHeader(h);
    TtlWordValue(h);
    TtlAboveOne(h.ttl);
    ByteBound(h.protocol);
    VerifiesBySum(HeaderWords(h));
    DecrementEqualsRecomputed(h);
  }

  lemma FirstWordBits(h: Ipv4)
    requires h.version != 0 || h.ihl != 0
    ensures HighHalf(Ipv4Row0(h)) != 0
  {
  }

  lemma FirstWordNonzero(h: Ipv4)
    requires h.version != 0 || h.ihl != 0
    ensures WordsBefore(h)[0] > 0
  {
    hide HighHalf, LowHalf, Ipv4Row0, Ipv4Row1, Val16;
    FirstWordBits(h);
    ChecksumIs(HighHalf(Ipv4Row0(h)));
  }

  lemma SumOfFirst(words: seq<u16>)
    requires words != []
    ensures Sum(words) >= words[0]
  {
  }

  /** A header that is all zero but for ttl 1 and the checksum of that. */
  const EDGE_HEADER := Ipv4(0, 0, 0, 0, 0, 0, 0, 1, 0, 0xFEFF, 0, 0)

  /** It verifies; the update leaves checksum 0, and no header of zeros verifies. Recomputing
      gives 0xFFFF, which does. */
  lemma EdgeDiffers()
    ensures Verifies(HeaderWords(EDGE_HEADER))
    ensures TtlDecremented(EDGE_HEADER).hdrChecksum == 0 && !Verifies(HeaderWords(TtlDecremented(EDGE_HEADER)))
    ensures ComputedChecksum(EDGE_HEADER.(ttl := 0)) == 0xFFFF
  {
    hide WordsBefore, WordsAfter, TtlWord, HeaderWords, TtlDecremented, Val16, ComputedChecksum;
    var h, g, lower := EDGE_HEADER, TtlDecremented(EDGE_HEADER), EDGE_HEADER.(ttl := 0);
    EdgeWordsAreZero();
    SumOfHeader(h);
    VerifiesBySum(HeaderWords(h));
    DecrementIsIncremental(h);
    NewTtlWord(h);
    ChecksumIs(h.hdrChecksum);
    IncrementalIsNorm(0xFEFF, 0x100, 0);
    ChecksumIs(g.hdrChecksum);
    DecrementKeepsVerdict(h);
    TtlWordValue(lower);
    ComputedIsFull(lower);
    AllZeroFold();
    AllOnes(ComputedChecksum(lower));
  }

  lemma {:induction false} SumOfZeros(words: seq<u16>)
    requires forall k :: 0 <= k < |words| ==> words[k] == 0
    ensures Sum(words) == 0
    decreases |words|
  {
    if words != [] {
      SumOfZeros(words[1..]);
    }
  }

  lemma EdgeWordsAreZero()
    ensures WordsBefore(EDGE_HEADER) == WordsBefore(EDGE_HEADER.(ttl := 0)) == [0, 0, 0, 0]
    ensures WordsAfter(EDGE_HEADER) == WordsAfter(EDGE_HEADER.(ttl := 0)) == [0, 0, 0, 0]
    ensures Sum(WordsBefore(EDGE_HEADER) + WordsAfter(EDGE_HEADER)) == 0
  {
    SumOfZeros(WordsBefore(EDGE_HEADER) + WordsAfter(EDGE_HEADER));
  }

  lemma AllZeroFold()
    ensures FullChecksum([0, 0, 0, 0] + [0] + [0, 0, 0, 0]) == 0xFFFF
  {
    var words: seq<u16> := [0, 0, 0, 0] + [0] + [0, 0, 0, 0];
    SumOfZeros(words);
    FoldIsNorm(0, words);
  }

  lemma AllOnes(c: bv16)
    requires Val16(c) == 0xFFFF
    ensures c == 0xFFFF
  {
    Val16Injective(c, 0xFFFF);
  }

  // ---- the header as it stands in a packet ----

  /** Big-endian 16-bit words of a byte string; an odd last byte is not a word. */
  function WordsOf(b: seq<bv8>): seq<u16>
    decreases |b|
  {
    if |b| < 2 then [] else [Val16(Be16(b[0], b[1]))] + WordsOf(b[2..])
  }

  lemma {:induction false} WordsOfConcat(a: seq<bv8>, b: seq<bv8>)
    requires |a| % 2 == 0
    ensures WordsOf(a + b) == WordsOf(a) + WordsOf(b)
    decreases |a|
  {
    if a == [] {
      assert a + b == b;
    } else {
      assert (a + b)[2..] == a[2..] + b;
      WordsOfConcat(a[2..], b);
    }
  }

  lemma RowHalves(x: bv32)
    ensures Be16(Row(x)[0], Row(x)[1]) == HighHalf(x) && Be16(Row(x)[2], Row(x)[3]) == LowHalf(x)
  {
  }

  lemma WordsOfTwo(a: bv8, b: bv8)
    ensures WordsOf([a, b]) == [Val16(Be16(a, b))]
  {
    assert [a, b][2..] == [];
  }

  lemma WordsOfRow(x: bv32)
    ensures WordsOf(Row(x)) == [Val16(HighHalf(x)), Val16(LowHalf(x))]
  {
    hide Row, Be16, HighHalf, LowHalf, Val16;
    RowHalves(x);
    var r := Row(x);
    assert r == [r[0], r[1]] + [r[2], r[3]];
    WordsOfConcat([r[0], r[1]], [r[2], r[3]]);
    WordsOfTwo(r[0], r[1]);
    WordsOfTwo(r[2], r[3]);
  }

  lemma PackedHalves(ttl: bv8, protocol: bv8, c: bv16)
    ensures HighHalf(PackRow2(ttl, protocol, c)) == Be16(ttl, protocol) && LowHalf(PackRow2(ttl, protocol, c)) == c
  {
  }

  lemma TtlRowHalves(h: Ipv4)
    ensures HighHalf(Ipv4Row2(h)) == Be16(h.ttl, h.protocol) && LowHalf(Ipv4Row2(h)) == h.hdrChecksum
  {
    hide HighHalf, LowHalf, PackRow2, Be16;
    PackedHalves(h.ttl, h.protocol, h.hdrChecksum);
  }

  /** The two words of a row. */
  function RowWords(x: bv32): seq<u16> {
    [Val16(HighHalf(x)), Val16(LowHalf(x))]
  }

  lemma WordsOfRows(a: bv32, b: bv32, c: bv32, d: bv32, e: bv32)
    ensures WordsOf(Row(a) + Row(b) + Row(c) + Row(d) + Row(e)) ==
            RowWords(a) + RowWords(b) + RowWords(c) + RowWords(d) + RowWords(e)
  {
    hide WordsOf, Row, Val16, HighHalf, LowHalf;
    WordsOfConcat(Row(a) + Row(b) + Row(c) + Row(d), Row(e));
    WordsOfConcat(Row(a) + Row(b) + Row(c), Row(d));
    WordsOfConcat(Row(a) + Row(b), Row(c));
    WordsOfConcat(Row(a), Row(b));
    WordsOfRow(a);
    WordsOfRow(b);
    WordsOfRow(c);
    WordsOfRow(d);
    WordsOfRow(e);
  }

  /** The ten words read from the serialized header are its header words. */
  lemma WordsOfHeader(h: Ipv4)
    ensures WordsOf(Ipv4Bytes(h)) == HeaderWords(h)
  {
    hide Row, WordsOf, Val16, Be16, HighHalf, LowHalf, Ipv4Row0, Ipv4Row1, Ipv4Row2;
    WordsOfRows(Ipv4Row0(h), Ipv4Row1(h), Ipv4Row2(h), h.srcAddr, h.dstAddr);
    TtlRowHalves(h);
  }
}
