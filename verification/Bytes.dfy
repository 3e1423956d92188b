// Loads, byte order and partial writes as the generated C sees them on a
// little-endian machine.

module Bytes {
  import opened Checksum

  // ---- big-endian joins ----

  function Be16(hi: bv8, lo: bv8): bv16 {
    ((hi as bv16) << 8) | (lo as bv16)
  }

  function Be32(a: bv8, b: bv8, c: bv8, d: bv8): bv32 {
    ((a as bv32) << 24) | ((b as bv32) << 16) | ((c as bv32) << 8) | (d as bv32)
  }

  function Hi(x: bv16): bv8 {
    (x >> 8) as bv8
  }

  function Lo(x: bv16): bv8 {
    (x & 0xFF) as bv8
  }

  /** A 32-bit row in network order. */
  function Row(x: bv32): (r: seq<bv8>)
    ensures |r| == 4
  {
    [(x >> 24) as bv8, ((x >> 16) & 0xFF) as bv8, ((x >> 8) & 0xFF) as bv8, (x & 0xFF) as bv8]
  }

  function Half(x: bv16): (r: seq<bv8>)
    ensures |r| == 2
  {
    [Hi(x), Lo(x)]
  }

  function Zeros(n: nat): (r: seq<bv8>)
    ensures |r| == n && forall k :: 0 <= k < n ==> r[k] == 0
  {
    seq(n, i => 0)
  }

  // ---- values in memory, least significant byte first ----

  function Mem16(x: bv16): (r: seq<bv8>)
    ensures |r| == 2
  {
    [(x & 0xFF) as bv8, (x >> 8) as bv8]
  }

  function Mem32(x: bv32): (r: seq<bv8>)
    ensures |r| == 4
  {
    [(x & 0xFF) as bv8, ((x >> 8) & 0xFF) as bv8, ((x >> 16) & 0xFF) as bv8, (x >> 24) as bv8]
  }

  /** The six low bytes of a 64-bit value, as a MAC address is kept. */
  function Mem48(x: bv64): (r: seq<bv8>)
    ensures |r| == 6
  {
    [(x & 0xFF) as bv8, ((x >> 8) & 0xFF) as bv8, ((x >> 16) & 0xFF) as bv8,
     ((x >> 24) & 0xFF) as bv8, ((x >> 32) & 0xFF) as bv8, ((x >> 40) & 0xFF) as bv8]
  }

  function Le16(a: bv8, b: bv8): bv16 {
    (a as bv16) | ((b as bv16) << 8)
  }

  function Le32(a: bv8, b: bv8, c: bv8, d: bv8): bv32 {
    (a as bv32) | ((b as bv32) << 8) | ((c as bv32) << 16) | ((d as bv32) << 24)
  }

  /** memcpy of six bytes into a zeroed 64-bit field */
  function Le48(b: seq<bv8>): bv64
    requires |b| == 6
  {
    (b[0] as bv64) | ((b[1] as bv64) << 8) | ((b[2] as bv64) << 16) |
    ((b[3] as bv64) << 24) | ((b[4] as bv64) << 32) | ((b[5] as bv64) << 40)
  }

  function Swab16(x: bv16): bv16 {
    ((x & 0xFF) << 8) | (x >> 8)
  }

  function Swab32(x: bv32): bv32 {
    ((x & 0xFF) << 24) | ((x & 0xFF00) << 8) | ((x >> 8) & 0xFF00) | (x >> 24)
  }

  function Swab64(x: bv64): bv64 {
    ((x & 0xFF) << 56) | (((x >> 8) & 0xFF) << 48) | (((x >> 16) & 0xFF) << 40) | (((x >> 24) & 0xFF) << 32) |
    (((x >> 32) & 0xFF) << 24) | (((x >> 40) & 0xFF) << 16) | (((x >> 48) & 0xFF) << 8) | (x >> 56)
  }

  lemma SwabTwice64(x: bv64)
    ensures Swab64(Swab64(x)) == x
  {
  }

  // ---- loads ----

  function LoadByte(pkt: array<bv8>, at: nat): bv8
    requires at < pkt.Length
    reads pkt
  {
    pkt[at]
  }

  /** load_half: a native load, then network to host order */
  function LoadHalf(pkt: array<bv8>, at: nat): bv16
    requires at + 2 <= pkt.Length
    reads pkt
  {
    Swab16(Le16(pkt[at], pkt[at + 1]))
  }

  /** load_word: a native load, then network to host order */
  function LoadWord(pkt: array<bv8>, at: nat): bv32
    requires at + 4 <= pkt.Length
    reads pkt
  {
    Swab32(Le32(pkt[at], pkt[at + 1], pkt[at + 2], pkt[at + 3]))
  }

  /** The same load on a slice of the packet. */
  function HalfAt(b: seq<bv8>, k: nat): bv16
    requires k + 2 <= |b|
  {
    Swab16(Le16(b[k], b[k + 1]))
  }

  lemma LoadHalfOfSlice(pkt: array<bv8>, from: nat, n: nat, k: nat)
    requires from + n <= pkt.Length && k + 2 <= n
    ensures LoadHalf(pkt, from + k) == HalfAt(pkt[from..from + n], k)
  {
    hide Swab16, Le16;
    assert pkt[from..from + n][k] == pkt[from + k] && pkt[from..from + n][k + 1] == pkt[from + k + 1];
  }

  /** A word load on a slice of the packet. */
  function WordAt(b: seq<bv8>, k: nat): bv32
    requires k + 4 <= |b|
  {
    Swab32(Le32(b[k], b[k + 1], b[k + 2], b[k + 3]))
  }

  lemma LoadWordOfSlice(pkt: array<bv8>, from: nat, n: nat, k: nat)
    requires from + n <= pkt.Length && k + 4 <= n
    ensures LoadWord(pkt, from + k) == WordAt(pkt[from..from + n], k)
  {
    hide Swab32, Le32;
    var b := pkt[from..from + n];
    assert b[k] == pkt[from + k] && b[k + 1] == pkt[from + k + 1];
    assert b[k + 2] == pkt[from + k + 2] && b[k + 3] == pkt[from + k + 3];
  }

  lemma SwabHalf(a: bv8, b: bv8)
    ensures Swab16(Le16(a, b)) == Be16(a, b)
  {
  }

  lemma SwabWord(a: bv8, b: bv8, c: bv8, d: bv8)
    ensures Swab32(Le32(a, b, c, d)) == Be32(a, b, c, d)
  {
  }

  lemma MemOfSwab16(x: bv16)
    ensures Mem16(Swab16(x)) == Half(x)
  {
  }

  lemma MemOfSwab32(x: bv32)
    ensures Mem32(x) == Row(Swab32(x)) && Mem32(Swab32(x)) == Row(x) && Swab32(Swab32(x)) == x
  {
  }

  lemma MemOfLe48(b: seq<bv8>)
    requires |b| == 6
    ensures Mem48(Le48(b)) == b
  {
  }

  lemma SliceOfSlice<T>(s: seq<T>, from: nat, n: nat, i: nat, j: nat)
    requires from + n <= |s| && i <= j <= n
    ensures s[from..from + n][i..j] == s[from + i..from + j]
  {
    var a, b := s[from..from + n][i..j], s[from + i..from + j];
    assert |a| == |b| && forall k :: 0 <= k < |a| ==> a[k] == b[k];
  }

  // ---- writes ----

  /** s with the bytes from `at` on replaced by b */
  function Splice(s: seq<bv8>, at: nat, b: seq<bv8>): (r: seq<bv8>)
    requires at + |b| <= |s|
    ensures |r| == |s|
  {
    s[..at] + b + s[at + |b|..]
  }

  lemma SpliceJoin(s: seq<bv8>, at: nat, a: seq<bv8>, b: seq<bv8>)
    requires at + |a| + |b| <= |s|
    ensures Splice(Splice(s, at, a), at + |a|, b) == Splice(s, at, a + b)
  {
  }

  /** A splice inside the middle part of a packet leaves the parts around it alone. */
  lemma SpliceInside(pre: seq<bv8>, x: seq<bv8>, suf: seq<bv8>, at: nat, b: seq<bv8>)
    requires at + |b| <= |x|
    ensures Splice(pre + x + suf, |pre| + at, b) == pre + Splice(x, at, b) + suf
  {
  }

  lemma SpliceFront(s: seq<bv8>, b: seq<bv8>)
    requires |b| <= |s|
    ensures Splice(s, 0, b) == b + s[|b|..]
  {
  }

  lemma SpliceNothing(s: seq<bv8>)
    ensures s == Splice(s, 0, [])
  {
  }

  lemma SpliceOne(s: seq<bv8>, at: nat, v: bv8)
    requires at < |s|
    ensures s[at := v] == Splice(s, at, [v])
  {
  }

  lemma SpliceTwo(s: seq<bv8>, at: nat, v: bv8, w: bv8)
    requires at + 2 <= |s|
    ensures s[at := v][at + 1 := w] == Splice(s, at, [v, w])
  {
  }

  method WriteByte(pkt: array<bv8>, at: nat, v: bv8)
    requires at < pkt.Length
    modifies pkt
    ensures pkt[..] == old(pkt[..])[at := v]
  {
    pkt[at] := v;
  }

  /** The byte writes of one field, in memory order. */
  method WriteField(pkt: array<bv8>, at: nat, m: seq<bv8>)
    requires at + |m| <= pkt.Length
    modifies pkt
    ensures pkt[..] == Splice(old(pkt[..]), at, m)
  {
    assert pkt[..] == Splice(pkt[..], at, []);
    for k := 0 to |m|
      invariant pkt[..] == Splice(old(pkt[..]), at, m[..k])
    {
      WriteByte(pkt, at + k, m[k]);
      SpliceNext(old(pkt[..]), at, m, k);
    }
    assert m[..|m|] == m;
  }

  lemma SpliceNext(s: seq<bv8>, at: nat, m: seq<bv8>, k: nat)
    requires at + |m| <= |s| && k < |m|
    ensures Splice(s, at, m[..k])[at + k := m[k]] == Splice(s, at, m[..k + 1])
  {
  }

  /** The new value of a byte after write_partial(a, w, s, v): w bits at shift s are
      cleared and v is or-ed in; v itself is not masked. */
  function Partial(b: bv8, w: nat, s: nat, v: bv8): bv8
    requires w < 8 && s < 8
  {
    (b & !((((1 as bv8) << w) - 1) << s)) | (v << s)
  }

  method WritePartial(pkt: array<bv8>, at: nat, w: nat, s: nat, v: bv8)
    requires at < pkt.Length && w < 8 && s < 8
    modifies pkt
    ensures pkt[..] == old(pkt[..])[at := Partial(old(pkt[at]), w, s, v)]
  {
    pkt[at] := Partial(pkt[at], w, s, v);
  }

  // ---- narrow fields inside a byte or a half ----

  function HighNibble(b: bv8): bv8 {
    (b >> 4) & 0xF
  }

  function LowNibble(b: bv8): bv8 {
    b & 0xF
  }

  function TopThree(b: bv8): bv8 {
    (b >> 5) & 7
  }

  function LowThirteen(x: bv16): bv16 {
    x & 0x1FFF
  }

  // ---- 16-bit words as checksum operands ----

  function Val16(x: bv16): u16 {
    x as int
  }

  function FourNibbles(a: bv4, b: bv4, c: bv4, d: bv4): bv16 {
    ((a as bv16) << 12) | ((b as bv16) << 8) | ((c as bv16) << 4) | (d as bv16)
  }

  function Digit(n: int): bv4
    requires 0 <= n < 0x10
  {
    n as bv4
  }

  /** The 16-bit word with value n. */
  function Word16(n: u16): bv16 {
    var hi, lo := n / 0x100, n % 0x100;
    FourNibbles(Digit(hi / 0x10), Digit(hi % 0x10), Digit(lo / 0x10), Digit(lo % 0x10))
  }

  lemma NibbleValue(n: int)
    requires 0 <= n < 0x10
    ensures Digit(n) as int == n
  {
  }

  lemma NibbleBits(a: bv4, b: bv4, c: bv4, d: bv4)
    ensures (((a as bv16) << 12) | ((b as bv16) << 8) | ((c as bv16) << 4) | (d as bv16)) as int
         == (a as int) * 0x1000 + (b as int) * 0x100 + (c as int) * 0x10 + d as int
  {
  }

  lemma FourNibblesValue(a: bv4, b: bv4, c: bv4, d: bv4)
    ensures Val16(FourNibbles(a, b, c, d)) == (a as int) * 0x1000 + (b as int) * 0x100 + (c as int) * 0x10 + d as int
  {
    NibbleBits(a, b, c, d);
  }

  lemma Word16Value(n: u16)
    ensures Val16(Word16(n)) == n
  {
    hide FourNibbles, Val16, Digit;
    var hi, lo := n / 0x100, n % 0x100;
    FourDigits(hi / 0x10, hi % 0x10, lo / 0x10, lo % 0x10);
  }

  lemma FourDigits(a: int, b: int, c: int, d: int)
    requires 0 <= a < 0x10 && 0 <= b < 0x10 && 0 <= c < 0x10 && 0 <= d < 0x10
    ensures Val16(FourNibbles(Digit(a), Digit(b), Digit(c), Digit(d))) == a * 0x1000 + b * 0x100 + c * 0x10 + d
  {
    hide FourNibbles, Val16;
    NibbleValue(a);
    NibbleValue(b);
    NibbleValue(c);
    NibbleValue(d);
    FourNibblesValue(Digit(a), Digit(b), Digit(c), Digit(d));
  }

  lemma JoinedBits(hi: bv8, lo: bv8)
    ensures (((hi as bv16) << 8) | (lo as bv16)) as int == (hi as int) * 0x100 + lo as int
  {
  }

  lemma JoinValue(hi: bv8, lo: bv8)
    ensures Val16(Be16(hi, lo)) == (hi as int) * 0x100 + lo as int
  {
    JoinedBits(hi, lo);
  }

  lemma Val16Inverse(x: bv16)
    ensures (x as int) as bv16 == x
  {
  }

  lemma Val16Injective(x: bv16, y: bv16)
    requires Val16(x) == Val16(y)
    ensures x == y
  {
    Val16Inverse(x);
    Val16Inverse(y);
  }
}
