// Ones'-complement checksum arithmetic: csum16_add, csum16_sub, and what folding
// them over 16-bit words computes (section 2 of RFC 1071, section 3 of RFC 1624).

module Checksum {

  type u16 = x: int | 0 <= x < 0x1_0000

  // ---- the routines, with the 16-bit wrap-around written out ----

  function Csum16Add(csum: u16, addend: u16): u16 {
    var res := (csum + addend) % 0x1_0000;
    (res + if res < addend then 1 else 0) % 0x1_0000
  }

  /** ~x on 16 bits */
  function Not16(x: u16): u16 {
    0xFFFF - x
  }

  function Csum16Sub(csum: u16, addend: u16): u16 {
    Csum16Add(csum, Not16(addend))
  }

  function Fold(csum: u16, words: seq<u16>): u16
    decreases |words|
  {
    if words == [] then csum else Fold(Csum16Add(csum, words[0]), words[1..])
  }

  // ---- the closed form ----

  function Sum(words: seq<u16>): nat
    decreases |words|
  {
    if words == [] then 0 else words[0] + Sum(words[1..])
  }

  /** The representative of s modulo 65535 that the routines keep: 0 only for the
      integer sum 0, otherwise a value between 1 and 65535. */
  function Norm(s: nat): u16 {
    if s == 0 then 0 else (s - 1) % 0xFFFF + 1
  }

  /** The end-around carry of RFC 1071: add the carries back in until none is left. */
  function EndAroundCarry(s: nat): u16
    decreases s
  {
    if s < 0x1_0000 then s else EndAroundCarry(s % 0x1_0000 + s / 0x1_0000)
  }

  lemma NormShift(s: nat, k: nat)
    requires s > 0
    ensures Norm(s + 0xFFFF * k) == Norm(s)
    decreases k
  {
    if k > 0 {
      NormShift(s, k - 1);
      OneTurn(s + 0xFFFF * (k - 1));
    }
  }

  lemma OneTurn(s: nat)
    requires s > 0
    ensures Norm(s + 0xFFFF) == Norm(s)
  {
    var q, m := (s - 1) / 0xFFFF, (s - 1) % 0xFFFF;
    assert s + 0xFFFF - 1 == 0xFFFF * (q + 1) + m;
  }

  lemma {:induction false} EndAroundCarryIsNorm(s: nat)
    ensures EndAroundCarry(s) == Norm(s)
    decreases s
  {
    if s >= 0x1_0000 {
      var carried := s % 0x1_0000 + s / 0x1_0000;
      EndAroundCarryIsNorm(carried);
      assert s == carried + 0xFFFF * (s / 0x1_0000);
      NormShift(carried, s / 0x1_0000);
    }
  }

  lemma AddIsNorm(a: u16, b: u16)
    ensures Csum16Add(a, b) == Norm(a + b)
  {
  }

  /** Norm forgets nothing that matters: normalizing a summand changes no later sum. */
  lemma NormAbsorbs(s: nat, t: nat)
    ensures Norm(Norm(s) + t) == Norm(s + t)
  {
    if s > 0 {
      var q := (s - 1) / 0xFFFF;
      assert s == Norm(s) + 0xFFFF * q;
      NormShift(Norm(s) + t, q);
    }
  }

  lemma {:induction false} FoldIsNorm(csum: u16, words: seq<u16>)
    ensures Fold(csum, words) == Norm(csum + Sum(words))
    decreases |words|
  {
    if words == [] {
      AddIsNorm(csum, 0);
    } else {
      FoldIsNorm(Csum16Add(csum, words[0]), words[1..]);
      AddIsNorm(csum, words[0]);
      NormAbsorbs(csum + words[0], Sum(words[1..]));
    }
  }

  // ---- order and grouping do not matter ----

  lemma {:induction false} SumConcat(a: seq<u16>, b: seq<u16>)
    ensures Sum(a + b) == Sum(a) + Sum(b)
    decreases |a|
  {
    if a == [] {
      assert a + b == b;
    } else {
      assert (a + b)[1..] == a[1..] + b;
      SumConcat(a[1..], b);
    }
  }

  function Without(b: seq<u16>, j: nat): seq<u16>
    requires j < |b|
  {
    b[..j] + b[j + 1..]
  }

  lemma SumWithout(b: seq<u16>, j: nat)
    requires j < |b|
    ensures Sum(b) == b[j] + Sum(Without(b, j))
  {
    assert b == b[..j] + b[j..];
    SumConcat(b[..j], b[j..]);
    SumConcat(b[..j], b[j + 1..]);
  }

  lemma BagWithout(b: seq<u16>, j: nat)
    requires j < |b|
    ensures multiset(Without(b, j)) == multiset(b) - multiset{b[j]}
  {
    assert b == b[..j] + [b[j]] + b[j + 1..];
  }

  lemma {:induction false} SumPermutation(a: seq<u16>, b: seq<u16>)
    requires multiset(a) == multiset(b)
    ensures Sum(a) == Sum(b)
    decreases |a|
  {
    if a == [] {
      assert |multiset(b)| == 0;
    } else {
      assert a[0] in multiset(b);
      var j :| 0 <= j < |b| && b[j] == a[0];
      BagWithout(a, 0);
      BagWithout(b, j);
      assert Without(a, 0) == a[1..];
      SumPermutation(a[1..], Without(b, j));
      SumWithout(b, j);
    }
  }

  /** The fold does not depend on the order of the words. */
  lemma FoldPermutation(csum: u16, a: seq<u16>, b: seq<u16>)
    requires multiset(a) == multiset(b)
    ensures Fold(csum, a) == Fold(csum, b)
  {
    SumPermutation(a, b);
    FoldIsNorm(csum, a);
    FoldIsNorm(csum, b);
  }

  /** Nor on how they are grouped: partial folds may be added up. */
  lemma FoldGrouping(a: seq<u16>, b: seq<u16>)
    ensures Fold(0, a + b) == Csum16Add(Fold(0, a), Fold(0, b))
  {
    FoldIsNorm(0, a + b);
    FoldIsNorm(0, a);
    FoldIsNorm(0, b);
    SumConcat(a, b);
    AddIsNorm(Norm(Sum(a)), Norm(Sum(b)));
    NormAbsorbs(Sum(a), Norm(Sum(b)));
    NormAbsorbs(Sum(b), Sum(a));
  }

  /** Folding is the end-around-carry sum of RFC 1071 taken over the integer sum. */
  lemma FoldIsInternetSum(words: seq<u16>)
    ensures Fold(0, words) == EndAroundCarry(Sum(words))
  {
    FoldIsNorm(0, words);
    EndAroundCarryIsNorm(Sum(words));
  }

  /** Subtracting what was added gives the accumulator back, unless it was 0. */
  lemma SubUndoesAdd(csum: u16, addend: u16)
    ensures Csum16Sub(Csum16Add(csum, addend), addend) == csum <==> csum != 0
  {
    AddIsNorm(csum, addend);
    AddIsNorm(Norm(csum + addend), Not16(addend));
    NormAbsorbs(csum + addend, Not16(addend));
    if csum > 0 {
      NormShift(csum, 1);
    }
  }

  // ---- header checksums ----

  /** A receiver accepts the words when they sum to 0xFFFF. */
  predicate Verifies(words: seq<u16>) {
    Fold(0, words) == 0xFFFF
  }

  /** The checksum computed from scratch over all words but the checksum itself. */
  function FullChecksum(rest: seq<u16>): u16 {
    Not16(Fold(0, rest))
  }

  /** Equation 3 of RFC 1624: word m becomes m', the checksum hc follows. */
  function IncrementalChecksum(hc: u16, m: u16, m': u16): u16 {
    Not16(Csum16Add(Csum16Sub(Not16(hc), m), m'))
  }

  lemma NormIsFull(s: nat)
    ensures Norm(s) == 0xFFFF <==> s > 0 && s % 0xFFFF == 0
  {
  }

  lemma VerifiesBySum(words: seq<u16>)
    ensures Verifies(words) <==> Sum(words) > 0 && Sum(words) % 0xFFFF == 0
  {
    FoldIsNorm(0, words);
    NormIsFull(Sum(words));
  }

  /** s plus the complement of its representative is a multiple of 65535. */
  lemma ComplementCancels(s: nat)
    ensures (s + Not16(Norm(s))) % 0xFFFF == 0 && s + Not16(Norm(s)) > 0
  {
    if s > 0 {
      var q := (s - 1) / 0xFFFF;
      assert s + Not16(Norm(s)) == 0xFFFF * (q + 1);
    }
  }

  /** A header with its checksum computed from scratch verifies, wherever the checksum stands. */
  lemma FullChecksumVerifies(before: seq<u16>, after: seq<u16>)
    ensures Verifies(before + [FullChecksum(before + after)] + after)
  {
    var s := Sum(before + after);
    var words := before + [FullChecksum(before + after)] + after;
    SumConcat(before, after);
    SumConcat(before + [FullChecksum(before + after)], after);
    SumConcat(before, [FullChecksum(before + after)]);
    FoldIsNorm(0, before + after);
    ComplementCancels(s);
    VerifiesBySum(words);
  }

  /** The incremental checksum in closed form. */
  lemma IncrementalIsNorm(hc: u16, m: u16, m': u16)
    ensures IncrementalChecksum(hc, m, m') == Not16(Norm(Not16(hc) + Not16(m) + m'))
  {
    AddIsNorm(Not16(hc), Not16(m));
    AddIsNorm(Norm(Not16(hc) + Not16(m)), m');
    NormAbsorbs(Not16(hc) + Not16(m), m');
  }

  lemma NormQuotient(s: nat)
    requires s > 0
    ensures s == Norm(s) + 0xFFFF * ((s - 1) / 0xFFFF)
  {
  }

  lemma NormResidue(s: nat)
    ensures Norm(s) % 0xFFFF == s % 0xFFFF
  {
    if s > 0 {
      NormQuotient(s);
      ShiftResidue(Norm(s), (s - 1) / 0xFFFF);
    }
  }

  lemma NormCongruent(s: nat, t: nat)
    requires s % 0xFFFF == t % 0xFFFF && s <= t && s > 0
    ensures Norm(s) == Norm(t)
  {
    assert t == s + 0xFFFF * (t / 0xFFFF - s / 0xFFFF);
    NormShift(s, t / 0xFFFF - s / 0xFFFF);
  }

  /** Two sums have one representative exactly when they are congruent and are zero together. */
  lemma NormsAgree(s: nat, t: nat)
    ensures Norm(s) == Norm(t) <==> s % 0xFFFF == t % 0xFFFF && (s == 0 <==> t == 0)
  {
    NormResidue(s);
    NormResidue(t);
    if s % 0xFFFF == t % 0xFFFF && s > 0 && t > 0 {
      if s <= t {
        NormCongruent(s, t);
      } else {
        NormCongruent(t, s);
      }
    }
  }

  lemma SameResidue(z: nat, a: nat, b: nat)
    requires b == a + 2 * 0xFFFF - z
    ensures a % 0xFFFF == b % 0xFFFF <==> z % 0xFFFF == 0
  {
    if z % 0xFFFF == 0 {
      assert a == b + 0xFFFF * (z / 0xFFFF - 2);
      ShiftResidue(b, z / 0xFFFF - 2);
    }
    if a % 0xFFFF == b % 0xFFFF {
      assert z == 0 + 0xFFFF * (a / 0xFFFF - b / 0xFFFF + 2);
      ShiftResidue(0, a / 0xFFFF - b / 0xFFFF + 2);
    }
  }

  /** For all words: the incremental checksum equals the recomputed one bit for bit if and only
      if the sum was a multiple of 65535 before, unless the new word is zero and exactly one of
      these holds: every other word is zero; both the old word and the old checksum are 0xFFFF. */
  lemma IncrementalEqualsFull(rest: seq<u16>, hc: u16, m: u16, m': u16)
    ensures IncrementalChecksum(hc, m, m') == FullChecksum(rest + [m']) <==>
            Sum(rest + [m, hc]) % 0xFFFF == 0 && !(m' == 0 && (Sum(rest) == 0) != (m == 0xFFFF && hc == 0xFFFF))
  {
    var s := Sum(rest);
    var t := Not16(hc) + Not16(m) + m';
    SumOfPair(rest, m, hc);
    SumConcat(rest, [m']);
    assert Sum([m']) == m';
    IncrementalIsNorm(hc, m, m');
    FoldIsNorm(0, rest + [m']);
    SameResidue(s + m + hc, s + m', t);
    NormsAgree(t, s + m');
  }

  /** Modulo 65535 the incremental update leaves the sum where it was, for all words. */
  lemma IncrementalKeepsResidue(s: nat, hc: u16, m: u16, m': u16)
    ensures (s + m' + IncrementalChecksum(hc, m, m')) % 0xFFFF == (s + m + hc) % 0xFFFF
  {
    IncrementalIsNorm(hc, m, m');
    var t := Not16(hc) + Not16(m) + m';
    var b := s + m + hc;
    if t == 0 {
      ShiftResidue(b, -1);
    } else {
      NormQuotient(t);
      ShiftResidue(b, (t - 1) / 0xFFFF - 1);
    }
  }

  /** Whether words verify is not changed by the incremental update, right or wrong, except when
      all words are zero before it and not after it, or after it and not before it. */
  lemma IncrementalKeepsVerdict(rest: seq<u16>, hc: u16, m: u16, m': u16)
    ensures var hc' := IncrementalChecksum(hc, m, m');
      (Verifies(rest + [m', hc']) <==> Verifies(rest + [m, hc])) <==>
      !(Sum(rest) == 0 && ((m == 0 && hc == 0 && m' > 0) || (m' == 0 && m + hc == 0xFFFF)))
  {
    hide IncrementalChecksum, Sum, Verifies;
    var hc' := IncrementalChecksum(hc, m, m');
    SumOfPair(rest, m, hc);
    SumOfPair(rest, m', hc');
    VerifiesBySum(rest + [m, hc]);
    VerifiesBySum(rest + [m', hc']);
    IncrementalKeepsResidue(Sum(rest), hc, m, m');
    ZeroAfter(hc, m);
  }

  /** When the update of a word to zero leaves a zero checksum. */
  lemma ZeroAfter(hc: u16, m: u16)
    ensures IncrementalChecksum(hc, m, 0) == 0 <==> m + hc == 0xFFFF || m + hc == 0
  {
    IncrementalIsNorm(hc, m, 0);
    NormIsFull(Not16(hc) + Not16(m));
  }

  lemma SumOfPair(rest: seq<u16>, m: u16, hc: u16)
    ensures Sum(rest + [m, hc]) == Sum(rest) + m + hc
  {
    SumConcat(rest, [m, hc]);
    assert Sum([m, hc]) == m + Sum([hc]) == m + hc;
  }

  lemma ShiftResidue(b: nat, k: int)
    requires b + 0xFFFF * k >= 0
    ensures (b + 0xFFFF * k) % 0xFFFF == b % 0xFFFF
  {
    var q, r := b / 0xFFFF, b % 0xFFFF;
    var c := b + 0xFFFF * k;
    assert c == 0xFFFF * (q + k) + r;
    assert c == 0xFFFF * (c / 0xFFFF) + c % 0xFFFF;
    assert c / 0xFFFF == q + k;
  }
}
