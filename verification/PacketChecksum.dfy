// The header checksum of a packet over all ihl * 4 bytes, options included, and what the one
// patch that both forwarding programs make does to it.

module PacketChecksum {
  import opened Checksum
  import opened Bytes
  import opened WireFormat
  import opened InternetHeader
  import opened Ipv4Packets

  /** The header with its options, as long as ihl says. */
  function FullHeader(p: seq<bv8>): seq<bv8>
    requires |p| >= 34 && HeaderFits(p)
  {
    p[14..14 + 4 * (IpHeader(p).ihl as int)]
  }

  predicate HeaderFits(p: seq<bv8>)
    requires |p| >= 34
  {
    14 + 4 * (IpHeader(p).ihl as int) <= |p|
  }

  /** The ten-word check extended over the options. */
  predicate HeaderVerifies(p: seq<bv8>)
    requires |p| >= 34 && HeaderFits(p)
  {
    Verifies(WordsOf(FullHeader(p)))
  }

  lemma PatchKeepsLength(h: Ipv4)
    ensures var g := TtlDecremented(h); g.ihl == h.ihl && g.srcAddr == h.srcAddr && g.dstAddr == h.dstAddr
  {
  }

  /** The first twelve bytes of the header: four words, the ttl word, the checksum. */
  lemma FirstTwelve(p: seq<bv8>)
    requires |p| >= 34
    ensures WordsOf(p[14..26]) == WordsBefore(IpHeader(p)) + [TtlWord(IpHeader(p))] + [Val16(IpHeader(p).hdrChecksum)]
  {
    hide Row, WordsOf, Val16, Be16, HighHalf, LowHalf, Ipv4Of, Ipv4Row0, Ipv4Row1, Ipv4Row2;
    var h := IpHeader(p);
    Ipv4RoundTripBytes(p[14..34]);
    var a, b, c := Row(Ipv4Row0(h)), Row(Ipv4Row1(h)), Row(Ipv4Row2(h));
    assert p[14..26] == p[14..34][..12] == a + b + c;
    WordsOfConcat(a + b, c);
    WordsOfConcat(a, b);
    WordsOfRow(Ipv4Row0(h));
    WordsOfRow(Ipv4Row1(h));
    WordsOfRow(Ipv4Row2(h));
    TtlRowHalves(h);
  }

  /** The words of the header that the patch does not touch: the four before the ttl word and
      those behind the checksum. */
  function KeptWords(p: seq<bv8>): seq<u16>
    requires |p| >= 34 && HeaderFits(p) && HasChecksum(p)
  {
    WordsBefore(IpHeader(p)) + WordsOf(p[26..14 + 4 * (IpHeader(p).ihl as int)])
  }

  /** The header is long enough to contain its checksum. */
  predicate HasChecksum(p: seq<bv8>)
    requires |p| >= 34
  {
    IpHeader(p).ihl as int >= 3
  }

  /** The checksum field is what computing it from scratch over all other words gives. */
  predicate ChecksumRecomputed(p: seq<bv8>)
    requires |p| >= 34 && HeaderFits(p) && HasChecksum(p)
  {
    var n := 14 + 4 * (IpHeader(p).ihl as int);
    Val16(IpHeader(p).hdrChecksum) == FullChecksum(WordsOf(p[14..24] + p[26..n]))
  }

  lemma FullHeaderWords(p: seq<bv8>)
    requires |p| >= 34 && HeaderFits(p) && HasChecksum(p)
    ensures var h, n := IpHeader(p), 14 + 4 * (IpHeader(p).ihl as int);
      WordsOf(p[14..n]) == WordsBefore(h) + [TtlWord(h)] + [Val16(h.hdrChecksum)] + WordsOf(p[26..n])
    ensures var h, n := IpHeader(p), 14 + 4 * (IpHeader(p).ihl as int);
      WordsOf(p[14..24] + p[26..n]) == WordsBefore(h) + [TtlWord(h)] + WordsOf(p[26..n])
  {
    hide WordsOf, Val16, IpHeader, WordsBefore, TtlWord;
    var h, n := IpHeader(p), 14 + 4 * (IpHeader(p).ihl as int);
    FirstTwelve(p);
    assert p[14..n] == p[14..26] + p[26..n];
    WordsOfConcat(p[14..26], p[26..n]);
    assert p[14..26] == p[14..24] + p[24..26] && p[24..26] == [p[24], p[25]];
    WordsOfConcat(p[14..24], p[24..26]);
    WordsOfTwo(p[24], p[25]);
    assert WordsOf(p[14..24]) == WordsOf(p[14..26])[..5];
    WordsOfConcat(p[14..24], p[26..n]);
  }

  lemma SumAround(before: seq<u16>, m: u16, hc: u16, after: seq<u16>)
    ensures Sum(before + [m] + [hc] + after) == Sum(before + after + [m, hc])
  {
    assert multiset(before + [m] + [hc] + after) == multiset(before + after + [m, hc]);
    SumPermutation(before + [m] + [hc] + after, before + after + [m, hc]);
  }

  lemma VerdictOfKept(p: seq<bv8>)
    requires |p| >= 34 && HeaderFits(p) && HasChecksum(p)
    ensures HeaderVerifies(p) <==> Verifies(KeptWords(p) + [TtlWord(IpHeader(p)), Val16(IpHeader(p).hdrChecksum)])
  {
    hide WordsOf, Val16, IpHeader, WordsBefore, TtlWord;
    var h, n := IpHeader(p), 14 + 4 * (IpHeader(p).ihl as int);
    FullHeaderWords(p);
    SumAround(WordsBefore(h), TtlWord(h), Val16(h.hdrChecksum), WordsOf(p[26..n]));
    VerifiesBySum(WordsOf(p[14..n]));
    VerifiesBySum(KeptWords(p) + [TtlWord(h), Val16(h.hdrChecksum)]);
  }

  lemma RecomputedOfKept(p: seq<bv8>)
    requires |p| >= 34 && HeaderFits(p) && HasChecksum(p)
    ensures var h := IpHeader(p);
      ChecksumRecomputed(p) <==> Val16(h.hdrChecksum) == FullChecksum(KeptWords(p) + [TtlWord(h)])
  {
    hide WordsOf, Val16, IpHeader, WordsBefore, TtlWord, FullChecksum;
    FullHeaderWords(p);
    Reordered(WordsBefore(IpHeader(p)), TtlWord(IpHeader(p)), WordsOf(p[26..14 + 4 * (IpHeader(p).ihl as int)]));
  }

  lemma IhlNonzero(ihl: bv4)
    requires ihl as int >= 3
    ensures ihl != 0
  {
  }

  /** A header that contains its checksum has a length, so its first word is not zero. */
  lemma KeptWordsNonzero(p: seq<bv8>)
    requires |p| >= 34 && HeaderFits(p) && HasChecksum(p)
    ensures Sum(KeptWords(p)) > 0
  {
    hide WordsOf, Val16, IpHeader, WordsBefore, TtlWord;
    IhlNonzero(IpHeader(p).ihl);
    FirstWordNonzero(IpHeader(p));
    SumOfFirst(KeptWords(p));
  }

  /** The patch keeps the words it does not touch and updates the checksum incrementally. */
  lemma PatchedWords(p: seq<bv8>, mac: bv48)
    requires IsIpv4Packet(p) && HeaderFits(p)
    ensures var q := Patched(p, mac);
      |q| == |p| && IsIpv4Packet(q) && HeaderFits(q) && IpHeader(q).ihl == IpHeader(p).ihl
    ensures HasChecksum(p) ==> KeptWords(Patched(p, mac)) == KeptWords(p)
    ensures var g, h := IpHeader(Patched(p, mac)), IpHeader(p);
      g == TtlDecremented(h) &&
      Val16(g.hdrChecksum) == IncrementalChecksum(Val16(h.hdrChecksum), TtlWord(h), TtlWord(g))
  {
    hide WordsOf, Val16, IpHeader, WordsBefore, TtlWord, Patched, TtlDecremented, IsIpv4Packet;
    var q, h, n := Patched(p, mac), IpHeader(p), 14 + 4 * (IpHeader(p).ihl as int);
    PatchedHeader(p, mac);
    PatchedKeeps(p, mac);
    PatchKeepsLength(h);
    DecrementFrame(h);
    DecrementIsIncremental(h);
    if HasChecksum(p) {
      assert q[26..n] == p[26..n];
    }
  }

  /** Whether the header checks out over all ihl * 4 bytes is the same before and after the
      patch, right or wrong, for every ttl and every ihl. */
  lemma PatchKeepsVerdict(p: seq<bv8>, mac: bv48)
    requires IsIpv4Packet(p) && HeaderFits(p)
    ensures |Patched(p, mac)| == |p| && HeaderFits(Patched(p, mac))
    ensures HeaderVerifies(Patched(p, mac)) <==> HeaderVerifies(p)
  {
    hide WordsOf, Val16, IpHeader, KeptWords, TtlWord, Patched, TtlDecremented, IsIpv4Packet, Sum, Verifies;
    var q, h := Patched(p, mac), IpHeader(p);
    PatchedWords(p, mac);
    if HasChecksum(p) {
      VerdictOfKept(p);
      VerdictOfKept(q);
      KeptWordsNonzero(p);
      IncrementalKeepsVerdict(KeptWords(p), Val16(h.hdrChecksum), TtlWord(h), TtlWord(IpHeader(q)));
    } else {
      var n := 14 + 4 * (h.ihl as int);
      PatchedKeeps(p, mac);
      assert q[14..n] == p[14..n];
    }
  }

  /** After the patch the checksum is what recomputing over all ihl * 4 bytes gives, bit for bit,
      exactly if the header checked out before, for every ttl. */
  lemma PatchRecomputes(p: seq<bv8>, mac: bv48)
    requires IsIpv4Packet(p) && HeaderFits(p) && HasChecksum(p)
    ensures |Patched(p, mac)| == |p| && HeaderFits(Patched(p, mac)) && HasChecksum(Patched(p, mac))
    ensures ChecksumRecomputed(Patched(p, mac)) <==> HeaderVerifies(p)
  {
    hide WordsOf, Val16, IpHeader, KeptWords, TtlWord, Patched, TtlDecremented, IsIpv4Packet, Sum, Verifies,
      FullChecksum, HeaderVerifies, ChecksumRecomputed;
    var q, h := Patched(p, mac), IpHeader(p);
    var m, hc := TtlWord(h), Val16(h.hdrChecksum);
    PatchedWords(p, mac);
    VerdictOfKept(p);
    RecomputedOfKept(q);
    KeptWordsNonzero(p);
    NewTtlWord(h);
    SumOfPair(KeptWords(p), m, hc);
    VerifiesBySum(KeptWords(p) + [m, hc]);
    IncrementalEqualsFull(KeptWords(p), hc, m, TtlWord(IpHeader(q)));
  }
}
