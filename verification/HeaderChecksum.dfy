// The checksum code the generated deparsers inline: the full checksum of a new
// header and the incremental one after the TTL decrement, on C structs.

module HeaderChecksum {
  import opened Checksum
  import opened Bytes
  import opened WireFormat
  import opened HeaderStructs
  import opened InternetHeader

  lemma {:induction false} FoldSnoc(csum: u16, words: seq<u16>, w: u16)
    ensures Fold(csum, words + [w]) == Csum16Add(Fold(csum, words), w)
    decreases |words|
  {
    if words == [] {
      assert words + [w] == [w] && [w][1..] == [];
    } else {
      assert (words + [w])[1..] == words[1..] + [w];
      FoldSnoc(Csum16Add(csum, words[0]), words[1..], w);
    }
  }

  // ---- the words the C code adds ----

  function VersionWord(ip: Ipv4T): bv16 {
    ((ip.version as bv16) << 12) | ((ip.ihl as bv16) << 8) | (ip.diffserv as bv16)
  }

  function FragmentWord(ip: Ipv4T): bv16 {
    ((ip.flags as bv16) << 13) | ip.fragOffset
  }

  function TtlProtocolWord(ttl: bv8, protocol: bv8): bv16 {
    ((ttl as bv16) << 8) | (protocol as bv16)
  }

  function UpperWord(x: bv32): bv16 {
    (x >> 16) as bv16
  }

  function LowerWord(x: bv32): bv16 {
    (x & 0xFFFF) as bv16
  }

  lemma VersionWordOnWire(v: Ipv4, ip: Ipv4T)
    requires ip.version < 16 && ip.ihl < 16
    requires v.version == To4(ip.version) && v.ihl == To4(ip.ihl) && v.diffserv == ip.diffserv
    ensures VersionWord(ip) == HighHalf(Ipv4Row0(v)) && LowHalf(Ipv4Row0(v)) == v.totalLen
  {
  }

  lemma FragmentWordOnWire(v: Ipv4, ip: Ipv4T)
    requires ip.flags < 8 && ip.fragOffset < 0x2000
    requires v.flags == To3(ip.flags) && v.fragOffset == To13(ip.fragOffset)
    ensures FragmentWord(ip) == LowHalf(Ipv4Row1(v)) && HighHalf(Ipv4Row1(v)) == v.identification
  {
  }

  /** The nine words in the order they are added. */
  function AddedWords(ip: Ipv4T): seq<u16> {
    [Val16(VersionWord(ip)), Val16(ip.totalLen), Val16(ip.identification), Val16(FragmentWord(ip)),
     Val16(TtlProtocolWord(ip.ttl, ip.protocol)),
     Val16(UpperWord(Swab32(ip.srcAddr))), Val16(LowerWord(Swab32(ip.srcAddr))),
     Val16(UpperWord(Swab32(ip.dstAddr))), Val16(LowerWord(Swab32(ip.dstAddr)))]
  }

  /** They are the words of the wire format, the checksum left out. */
  lemma AddedWordsOnWire(ip: Ipv4T)
    requires InRange(ip)
    ensures var v := Ipv4View(ip); AddedWords(ip) == WordsBefore(v) + [TtlWord(v)] + WordsAfter(v)
  {
    hide Val16, VersionWord, FragmentWord, Ipv4Row0, Ipv4Row1, Swab32, To4, To3, To13;
    VersionWordOnWire(Ipv4View(ip), ip);
    FragmentWordOnWire(Ipv4View(ip), ip);
  }

  /** chk.clear(), chk.add(...) over all fields but the checksum, chk.get() */
  method FullHeaderChecksum(ip: Ipv4T) returns (c: bv16)
    requires InRange(ip)
    ensures c == ComputedChecksum(Ipv4View(ip))
  {
    hide Val16, VersionWord, FragmentWord, TtlProtocolWord, UpperWord, LowerWord, Swab32, Word16, Fold, InRange,
      Csum16Add;
    ghost var words := AddedWords(ip);
    var chk := AddFront(ip);
    chk := Csum16Add(chk, Val16(TtlProtocolWord(ip.ttl, ip.protocol)));
    FoldSnoc(0, words[..4], words[4]);
    assert words[..4] + [words[4]] == words[..5];
    chk := AddAddress(chk, ip.srcAddr, words[..5]);
    assert words[..5] + [words[5], words[6]] == words[..7];
    chk := AddAddress(chk, ip.dstAddr, words[..7]);
    assert words[..7] + [words[7], words[8]] == words;
    c := Word16(Not16(chk));
    AddedWordsOnWire(ip);
    FoldIsInternetSum(words);
  }

  method AddFront(ip: Ipv4T) returns (chk: u16)
    ensures chk == Fold(0, AddedWords(ip)[..4])
  {
    hide Val16, VersionWord, FragmentWord, TtlProtocolWord, UpperWord, LowerWord, Swab32, Csum16Add;
    chk := 0;
    chk := Csum16Add(chk, Val16(VersionWord(ip)));
    chk := Csum16Add(chk, Val16(ip.totalLen));
    chk := Csum16Add(chk, Val16(ip.identification));
    chk := Csum16Add(chk, Val16(FragmentWord(ip)));
    FoldFour(0, AddedWords(ip)[..4]);
  }

  lemma FoldFour(csum: u16, w: seq<u16>)
    requires |w| == 4
    ensures Fold(csum, w) == Csum16Add(Csum16Add(Csum16Add(Csum16Add(csum, w[0]), w[1]), w[2]), w[3])
  {
    hide Csum16Add;
    FoldSnoc(csum, w[..3], w[3]);
    FoldSnoc(csum, w[..2], w[2]);
    FoldSnoc(csum, w[..1], w[1]);
    FoldSnoc(csum, w[..0], w[0]);
    assert w == w[..3] + [w[3]] && w[..3] == w[..2] + [w[2]] && w[..2] == w[..1] + [w[1]] && w[..1] == w[..0] + [w[0]];
  }

  /** An address is added as two words, after the conversion to host order. */
  method AddAddress(chk0: u16, address: bv32, ghost words: seq<u16>) returns (chk: u16)
    requires chk0 == Fold(0, words)
    ensures chk == Fold(0, words + [Val16(UpperWord(Swab32(address))), Val16(LowerWord(Swab32(address)))])
  {
    hide Val16, UpperWord, LowerWord, Swab32, Csum16Add, Fold;
    var host := Swab32(address);
    var u, l := Val16(UpperWord(host)), Val16(LowerWord(host));
    chk := Csum16Add(chk0, u);
    FoldSnoc(0, words, u);
    chk := Csum16Add(chk, l);
    FoldSnoc(0, words + [u], l);
    assert words + [u] + [l] == words + [u, l];
  }

  /** chk.set_state(~hdrChecksum), subtract the old word, decrement, add the new word */
  method DecrementTtl(ip0: Ipv4T) returns (ip: Ipv4T)
    requires InRange(ip0)
    ensures InRange(ip) && ip.valid == ip0.valid
    ensures Ipv4View(ip) == TtlDecremented(Ipv4View(ip0))
  {
    hide Val16, Word16, Csum16Add, InRange, Ipv4View, TtlDecremented, TtlProtocolWord;
    ip := ip0;
    var chk := Not16(Val16(ip.hdrChecksum));
    chk := Csum16Sub(chk, Val16(TtlProtocolWord(ip.ttl, ip.protocol)));
    ip := ip.(ttl := ip.ttl + 255);
    chk := Csum16Add(chk, Val16(TtlProtocolWord(ip.ttl, ip.protocol)));
    ip := ip.(hdrChecksum := Word16(Not16(chk)));
    DecrementedView(ip0, chk, ip);
  }

  lemma UpdatedView(ip: Ipv4T, t: bv8, c: bv16)
    ensures Ipv4View(ip.(ttl := t, hdrChecksum := c)) == Ipv4View(ip).(ttl := t, hdrChecksum := c)
    ensures InRange(ip.(ttl := t, hdrChecksum := c)) == InRange(ip)
    ensures var v := Ipv4View(ip); v.ttl == ip.ttl && v.protocol == ip.protocol && v.hdrChecksum == ip.hdrChecksum
  {
    hide To4, To3, To13, Swab32;
  }

  lemma DecrementedHeader(v: Ipv4, t: bv8, chk: u16)
    requires t == v.ttl + 255
    requires var m, m' := Val16(Be16(v.ttl, v.protocol)), Val16(Be16(t, v.protocol));
      chk == Csum16Add(Csum16Sub(Not16(Val16(v.hdrChecksum)), m), m')
    ensures v.(ttl := t, hdrChecksum := Word16(Not16(chk))) == TtlDecremented(v)
  {
    hide Val16, Word16, Csum16Add, Csum16Sub, Be16;
    IncrementalIsCarried(Val16(v.hdrChecksum), Val16(Be16(v.ttl, v.protocol)), Val16(Be16(t, v.protocol)));
  }

  lemma DecrementedView(ip0: Ipv4T, chk: u16, ip: Ipv4T)
    requires InRange(ip0)
    requires var m, m' := TtlProtocolWord(ip0.ttl, ip0.protocol), TtlProtocolWord(ip0.ttl + 255, ip0.protocol);
      chk == Csum16Add(Csum16Sub(Not16(Val16(ip0.hdrChecksum)), Val16(m)), Val16(m'))
    requires ip == ip0.(ttl := ip0.ttl + 255, hdrChecksum := Word16(Not16(chk)))
    ensures InRange(ip) && Ipv4View(ip) == TtlDecremented(Ipv4View(ip0))
  {
    hide Val16, Word16, Csum16Add, Csum16Sub, TtlProtocolWord, Be16, Ipv4View, InRange, TtlDecremented;
    var t := ip0.ttl + 255;
    UpdatedView(ip0, t, Word16(Not16(chk)));
    TtlWordsMatch(ip0.ttl, ip0.protocol);
    TtlWordsMatch(t, ip0.protocol);
    DecrementedHeader(Ipv4View(ip0), t, chk);
  }

  lemma TtlWordsMatch(ttl: bv8, protocol: bv8)
    ensures TtlProtocolWord(ttl, protocol) == Be16(ttl, protocol)
  {
  }

  lemma IncrementalIsCarried(hc: u16, m: u16, m': u16)
    ensures Csum16Add(Csum16Sub(Not16(hc), m), m') == EndAroundCarry(Not16(hc) + Not16(m) + m')
  {
    AddIsNorm(Not16(hc), Not16(m));
    AddIsNorm(Norm(Not16(hc) + Not16(m)), m');
    NormAbsorbs(Not16(hc) + Not16(m), m');
    EndAroundCarryIsNorm(Not16(hc) + Not16(m) + m');
  }
}
