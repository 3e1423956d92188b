// Extraction and emission of the bit-packed headers undo each other, in both directions and
// whatever the buffer held before.

module HeaderCodec {
  import opened Bytes
  import opened WireFormat
  import opened HeaderStructs
  import opened Ipv6Structs

  // a narrow field in range is determined by the bits that are kept

  lemma Kept4(a: bv8, b: bv8)
    requires a < 16 && b < 16 && To4(a) == To4(b)
    ensures a == b
  {
  }

  lemma Kept3(a: bv8, b: bv8)
    requires a < 8 && b < 8 && To3(a) == To3(b)
    ensures a == b
  {
  }

  lemma Kept13(a: bv16, b: bv16)
    requires a < 0x2000 && b < 0x2000 && To13(a) == To13(b)
    ensures a == b
  {
  }

  lemma Kept20(a: bv32, b: bv32)
    requires a < 0x10_0000 && b < 0x10_0000 && To20(a) == To20(b)
    ensures a == b
  {
  }

  /** The range invariant makes the P4 header determine the struct. */
  lemma ViewDetermines(g: Ipv4T, h: Ipv4T)
    requires InRange(g) && InRange(h) && g.valid == h.valid && Ipv4View(g) == Ipv4View(h)
    ensures g == h
  {
    hide To4, To3, To13, Swab32;
    Kept4(g.version, h.version);
    Kept4(g.ihl, h.ihl);
    Kept3(g.flags, h.flags);
    Kept13(g.fragOffset, h.fragOffset);
    MemOfSwab32(g.srcAddr);
    MemOfSwab32(h.srcAddr);
    MemOfSwab32(g.dstAddr);
    MemOfSwab32(h.dstAddr);
  }

  lemma ViewDetermines6(g: Ipv6T, h: Ipv6T)
    requires InRange6(g) && InRange6(h) && g.valid == h.valid && Ipv6View(g) == Ipv6View(h)
    ensures g == h
  {
    hide To4, To20;
    Kept4(g.version, h.version);
    Kept20(g.flowLabel, h.flowLabel);
  }

  lemma SplicedSlice(s: seq<bv8>, at: nat, b: seq<bv8>)
    requires at + |b| <= |s|
    ensures Splice(s, at, b)[at..at + |b|] == b
    ensures Splice(s, at, s[at..at + |b|]) == s
  {
  }

  /** Writing back what was read restores the buffer. */
  lemma EmitOfParsed(s: seq<bv8>, at: nat)
    requires at + 20 <= |s|
    ensures Splice(s, at, Ipv4Bytes(Ipv4View(LoadedIpv4(s[at..at + 20])))) == s
  {
    hide Ipv4Bytes, Ipv4View, LoadedIpv4, Ipv4Of, Splice;
    var b := s[at..at + 20];
    LoadedIpv4View(b);
    Ipv4RoundTripBytes(b);
    SplicedSlice(s, at, b);
  }

  /** Reading back what was written restores every field of a header in range. */
  lemma ParseOfEmitted(s: seq<bv8>, at: nat, h: Ipv4T)
    requires at + 20 <= |s| && InRange(h)
    ensures LoadedIpv4(Splice(s, at, Ipv4Bytes(Ipv4View(h)))[at..at + 20]) == h.(valid := true)
  {
    hide Ipv4Bytes, Ipv4View, Ipv4Of, Splice, InRange, LoadedIpv4;
    var b := Ipv4Bytes(Ipv4View(h));
    SplicedSlice(s, at, b);
    LoadedIpv4View(b);
    Ipv4RoundTrip(Ipv4View(h));
    ValidBit(h);
    ValidWhenLoaded(b);
    ViewDetermines(LoadedIpv4(b), h.(valid := true));
  }

  lemma ValidBit(h: Ipv4T)
    ensures Ipv4View(h.(valid := true)) == Ipv4View(h) && InRange(h.(valid := true)) == InRange(h)
  {
    hide To4, To3, To13, Swab32;
  }

  lemma ValidWhenLoaded(b: seq<bv8>)
    requires |b| == 20
    ensures LoadedIpv4(b).valid
  {
  }

  lemma EmitOfParsed6(s: seq<bv8>, at: nat)
    requires at + 40 <= |s|
    ensures var h := LoadedIpv6(s[at..at + 40]);
      Ipv6WellFormed(Ipv6View(h)) && Splice(s, at, Ipv6Bytes(Ipv6View(h))) == s
  {
    hide Ipv6Bytes, Ipv6View, LoadedIpv6, Ipv6Of, Splice;
    var b := s[at..at + 40];
    LoadedIpv6View(b);
    Ipv6RoundTripBytes(b);
    SplicedSlice(s, at, b);
  }

  lemma ParseOfEmitted6(s: seq<bv8>, at: nat, h: Ipv6T)
    requires at + 40 <= |s| && InRange6(h)
    ensures LoadedIpv6(Splice(s, at, Ipv6Bytes(Ipv6View(h)))[at..at + 40]) == h.(valid := true)
  {
    hide Ipv6Bytes, Ipv6Of, Splice, LoadedIpv6, To4, To20;
    var b := Ipv6Bytes(Ipv6View(h));
    SplicedSlice(s, at, b);
    LoadedIpv6View(b);
    Ipv6RoundTrip(Ipv6View(h));
    ValidWhenLoaded6(b);
    ViewDetermines6(LoadedIpv6(b), h.(valid := true));
  }

  lemma ValidWhenLoaded6(b: seq<bv8>)
    requires |b| == 40
    ensures LoadedIpv6(b).valid
  {
  }

  /** write_partial does not mask: what does not fit in the low nibble is or-ed into the high
      one, so the first field of the byte survives exactly when those bits are in it already. */
  lemma SpillsExactly(b: bv8, hi: bv8, lo: bv8)
    requires hi < 16
    ensures HighNibble(Partial(Partial(b, 4, 4, hi), 4, 0, lo)) == hi <==> hi | (lo >> 4) == hi
  {
  }
}
