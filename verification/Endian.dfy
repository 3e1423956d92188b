// The byte-swap macros of the little-endian branch, and what they mean: the bytes of a
// value in memory, reversed.

module Endian {
  import opened Bytes

  // ___bpf_mvb(x, b, n, m) expanded: byte n of a b-bit value is shifted to the top, then to
  // the bottom, then to place m

  function BpfSwab16(x: bv16): bv16 {
    (((x << 8) >> 8) << 8) | (((x << 0) >> 8) << 0)
  }

  function BpfSwab32(x: bv32): bv32 {
    (((x << 24) >> 24) << 24) | (((x << 16) >> 24) << 16) | (((x << 8) >> 24) << 8) | (((x << 0) >> 24) << 0)
  }

  function BpfSwab64(x: bv64): bv64 {
    (((x << 56) >> 56) << 56) | (((x << 48) >> 56) << 48) | (((x << 40) >> 56) << 40) | (((x << 32) >> 56) << 32) |
    (((x << 24) >> 56) << 24) | (((x << 16) >> 56) << 16) | (((x << 8) >> 56) << 8) | (((x << 0) >> 56) << 0)
  }

  function Mem64(x: bv64): (r: seq<bv8>)
    ensures |r| == 8
  {
    [(x & 0xFF) as bv8, ((x >> 8) & 0xFF) as bv8, ((x >> 16) & 0xFF) as bv8, ((x >> 24) & 0xFF) as bv8,
     ((x >> 32) & 0xFF) as bv8, ((x >> 40) & 0xFF) as bv8, ((x >> 48) & 0xFF) as bv8, (x >> 56) as bv8]
  }

  lemma Swab16ReversesMemory(x: bv16)
    ensures BpfSwab16(x) == Swab16(x)
    ensures var m := Mem16(x); Mem16(BpfSwab16(x)) == [m[1], m[0]]
  {
  }

  lemma Swab32ReversesMemory(x: bv32)
    ensures BpfSwab32(x) == Swab32(x)
    ensures var m := Mem32(x); Mem32(BpfSwab32(x)) == [m[3], m[2], m[1], m[0]]
  {
  }

  lemma Swab64Expanded(x: bv64)
    ensures BpfSwab64(x) == Swab64(x)
  {
  }

  lemma Swab64ReversesMemory(x: bv64)
    ensures BpfSwab64(x) == Swab64(x)
    ensures var m := Mem64(x); Mem64(BpfSwab64(x)) == [m[7], m[6], m[5], m[4], m[3], m[2], m[1], m[0]]
  {
    hide BpfSwab64;
    Swab64Expanded(x);
  }
}
