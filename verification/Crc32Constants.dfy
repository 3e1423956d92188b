// The numbers in crc32.h: 64 of them, the entries of the powers of two, fix the table,
// because every other entry is their sum over GF(2).

module Crc32Constants {
  import opened Iteration
  import opened CheckInput
  import opened CrcSpec
  import opened Crc32

  /** The bytes 1, 2, 4, ..., 128, and their entries in each of the eight slices. */
  const POWERS: seq<bv32> := [1, 2, 4, 8, 16, 32, 64, 128]
  const SLICE_0: seq<bv32> := [
    0x77073096, 0xEE0E612C, 0x076DC419, 0x0EDB8832,
    0x1DB71064, 0x3B6E20C8, 0x76DC4190, 0xEDB88320
  ]
  const SLICE_1: seq<bv32> := [
    0x191B3141, 0x32366282, 0x646CC504, 0xC8D98A08,
    0x4AC21251, 0x958424A2, 0xF0794F05, 0x3B83984B
  ]
  const SLICE_2: seq<bv32> := [
    0x01C26A37, 0x0384D46E, 0x0709A8DC, 0x0E1351B8,
    0x1C26A370, 0x384D46E0, 0x709A8DC0, 0xE1351B80
  ]
  const SLICE_3: seq<bv32> := [
    0xB8BC6765, 0xAA09C88B, 0x8F629757, 0xC5B428EF,
    0x5019579F, 0xA032AF3E, 0x9B14583D, 0xED59B63B
  ]
  const SLICE_4: seq<bv32> := [
    0x3D6029B0, 0x7AC05360, 0xF580A6C0, 0x30704BC1,
    0x60E09782, 0xC1C12F04, 0x58F35849, 0xB1E6B092
  ]
  const SLICE_5: seq<bv32> := [
    0xCB5CD3A5, 0x4DC8A10B, 0x9B914216, 0xEC53826D,
    0x03D6029B, 0x07AC0536, 0x0F580A6C, 0x1EB014D8
  ]
  const SLICE_6: seq<bv32> := [
    0xA6770BB4, 0x979F1129, 0xF44F2413, 0x33EF4E67,
    0x67DE9CCE, 0xCFBD399C, 0x440B7579, 0x8816EAF2
  ]
  const SLICE_7: seq<bv32> := [
    0xCCAA009E, 0x4225077D, 0x844A0EFA, 0xD3E51BB5,
    0x7CBB312B, 0xF9766256, 0x299DC2ED, 0x533B85DA
  ]

  function PowerEntries(k: nat): (r: seq<bv32>)
    requires k < 8
    ensures |r| == 8
  {
    if k == 0 then SLICE_0 else if k == 1 then SLICE_1 else if k == 2 then SLICE_2 else if k == 3 then SLICE_3
    else if k == 4 then SLICE_4 else if k == 5 then SLICE_5 else if k == 6 then SLICE_6 else SLICE_7
  }

  // ---- the numbers, evaluated ----

  ghost predicate EightStepsEach(from: seq<bv32>, to: seq<bv32>)
    requires |from| == |to| == 8
  {
    forall j :: 0 <= j < 8 ==> Steps(8, from[j]) == to[j]
  }

  lemma Evaluate(from: seq<bv32>, to: seq<bv32>)
    requires |from| == |to| == 8
    requires forall j :: 0 <= j < 8 ==> EightTimes(from[j]) == to[j]
    ensures EightStepsEach(from, to)
  {
    forall j | 0 <= j < 8 ensures Steps(8, from[j]) == to[j] {
      StepsAreEightTimes(from[j]);
    }
  }

  lemma Numbers0()
    ensures EightTimes(0x00000001) == 0x77073096
    ensures EightTimes(0x00000002) == 0xEE0E612C
    ensures EightTimes(0x00000004) == 0x076DC419
    ensures EightTimes(0x00000008) == 0x0EDB8832
    ensures EightTimes(0x00000010) == 0x1DB71064
    ensures EightTimes(0x00000020) == 0x3B6E20C8
    ensures EightTimes(0x00000040) == 0x76DC4190
    ensures EightTimes(0x00000080) == 0xEDB88320
  {
  }

  lemma Evaluate0()
    ensures EightStepsEach(POWERS, SLICE_0)
  {
    hide EightTimes;
    Numbers0();
    Evaluate(POWERS, SLICE_0);
  }

  lemma Numbers1()
    ensures EightTimes(0x77073096) == 0x191B3141
    ensures EightTimes(0xEE0E612C) == 0x32366282
    ensures EightTimes(0x076DC419) == 0x646CC504
    ensures EightTimes(0x0EDB8832) == 0xC8D98A08
    ensures EightTimes(0x1DB71064) == 0x4AC21251
    ensures EightTimes(0x3B6E20C8) == 0x958424A2
    ensures EightTimes(0x76DC4190) == 0xF0794F05
    ensures EightTimes(0xEDB88320) == 0x3B83984B
  {
  }

  lemma Evaluate1()
    ensures EightStepsEach(SLICE_0, SLICE_1)
  {
    hide EightTimes;
    Numbers1();
    Evaluate(SLICE_0, SLICE_1);
  }

  lemma Numbers2()
    ensures EightTimes(0x191B3141) == 0x01C26A37
    ensures EightTimes(0x32366282) == 0x0384D46E
    ensures EightTimes(0x646CC504) == 0x0709A8DC
    ensures EightTimes(0xC8D98A08) == 0x0E1351B8
    ensures EightTimes(0x4AC21251) == 0x1C26A370
    ensures EightTimes(0x958424A2) == 0x384D46E0
    ensures EightTimes(0xF0794F05) == 0x709A8DC0
    ensures EightTimes(0x3B83984B) == 0xE1351B80
  {
  }

  lemma Evaluate2()
    ensures EightStepsEach(SLICE_1, SLICE_2)
  {
    hide EightTimes;
    Numbers2();
    Evaluate(SLICE_1, SLICE_2);
  }

  lemma Numbers3()
    ensures EightTimes(0x01C26A37) == 0xB8BC6765
    ensures EightTimes(0x0384D46E) == 0xAA09C88B
    ensures EightTimes(0x0709A8DC) == 0x8F629757
    ensures EightTimes(0x0E1351B8) == 0xC5B428EF
    ensures EightTimes(0x1C26A370) == 0x5019579F
    ensures EightTimes(0x384D46E0) == 0xA032AF3E
    ensures EightTimes(0x709A8DC0) == 0x9B14583D
    ensures EightTimes(0xE1351B80) == 0xED59B63B
  {
  }

  lemma Evaluate3()
    ensures EightStepsEach(SLICE_2, SLICE_3)
  {
    hide EightTimes;
    Numbers3();
    Evaluate(SLICE_2, SLICE_3);
  }

  lemma Numbers4()
    ensures EightTimes(0xB8BC6765) == 0x3D6029B0
    ensures EightTimes(0xAA09C88B) == 0x7AC05360
    ensures EightTimes(0x8F629757) == 0xF580A6C0
    ensures EightTimes(0xC5B428EF) == 0x30704BC1
    ensures EightTimes(0x5019579F) == 0x60E09782
    ensures EightTimes(0xA032AF3E) == 0xC1C12F04
    ensures EightTimes(0x9B14583D) == 0x58F35849
    ensures EightTimes(0xED59B63B) == 0xB1E6B092
  {
  }

  lemma Evaluate4()
    ensures EightStepsEach(SLICE_3, SLICE_4)
  {
    hide EightTimes;
    Numbers4();
    Evaluate(SLICE_3, SLICE_4);
  }

  lemma Numbers5()
    ensures EightTimes(0x3D6029B0) == 0xCB5CD3A5
    ensures EightTimes(0x7AC05360) == 0x4DC8A10B
    ensures EightTimes(0xF580A6C0) == 0x9B914216
    ensures EightTimes(0x30704BC1) == 0xEC53826D
    ensures EightTimes(0x60E09782) == 0x03D6029B
    ensures EightTimes(0xC1C12F04) == 0x07AC0536
    ensures EightTimes(0x58F35849) == 0x0F580A6C
    ensures EightTimes(0xB1E6B092) == 0x1EB014D8
  {
  }

  lemma Evaluate5()
    ensures EightStepsEach(SLICE_4, SLICE_5)
  {
    hide EightTimes;
    Numbers5();
    Evaluate(SLICE_4, SLICE_5);
  }

  lemma Numbers6()
    ensures EightTimes(0xCB5CD3A5) == 0xA6770BB4
    ensures EightTimes(0x4DC8A10B) == 0x979F1129
    ensures EightTimes(0x9B914216) == 0xF44F2413
    ensures EightTimes(0xEC53826D) == 0x33EF4E67
    ensures EightTimes(0x03D6029B) == 0x67DE9CCE
    ensures EightTimes(0x07AC0536) == 0xCFBD399C
    ensures EightTimes(0x0F580A6C) == 0x440B7579
    ensures EightTimes(0x1EB014D8) == 0x8816EAF2
  {
  }

  lemma Evaluate6()
    ensures EightStepsEach(SLICE_5, SLICE_6)
  {
    hide EightTimes;
    Numbers6();
    Evaluate(SLICE_5, SLICE_6);
  }

  lemma Numbers7()
    ensures EightTimes(0xA6770BB4) == 0xCCAA009E
    ensures EightTimes(0x979F1129) == 0x4225077D
    ensures EightTimes(0xF44F2413) == 0x844A0EFA
    ensures EightTimes(0x33EF4E67) == 0xD3E51BB5
    ensures EightTimes(0x67DE9CCE) == 0x7CBB312B
    ensures EightTimes(0xCFBD399C) == 0xF9766256
    ensures EightTimes(0x440B7579) == 0x299DC2ED
    ensures EightTimes(0x8816EAF2) == 0x533B85DA
  {
  }

  lemma Evaluate7()
    ensures EightStepsEach(SLICE_6, SLICE_7)
  {
    hide EightTimes;
    Numbers7();
    Evaluate(SLICE_6, SLICE_7);
  }

  lemma EvaluateSlice(k: nat)
    requires 0 < k < 8
    ensures EightStepsEach(PowerEntries(k - 1), PowerEntries(k))
  {
    hide EightStepsEach;
    Evaluate1();
    Evaluate2();
    Evaluate3();
    Evaluate4();
    Evaluate5();
    Evaluate6();
    Evaluate7();
  }

  lemma {:induction false} PowerEntriesAreSteps(k: nat)
    requires k < 8
    ensures forall j :: 0 <= j < 8 ==> Steps(8 * k + 8, POWERS[j]) == PowerEntries(k)[j]
    decreases k
  {
    hide Steps, PowerEntries;
    if k == 0 {
      Evaluate0();
      FirstEntries();
    } else {
      PowerEntriesAreSteps(k - 1);
      EvaluateSlice(k);
      forall j | 0 <= j < 8 ensures Steps(8 * k + 8, POWERS[j]) == PowerEntries(k)[j] {
        StepsSplit(8 * k, 8, POWERS[j]);
      }
    }
  }

  lemma FirstEntries()
    ensures PowerEntries(0) == SLICE_0
  {
  }

  // ---- the rest of the table ----

  function Pick(b: bv8, m: bv8, e: bv32): bv32 {
    if b & m != 0 then e else 0
  }

  /** The sum over GF(2) of the entries of the bits of b. */
  function Combined(b: bv8, e: seq<bv32>): bv32
    requires |e| == 8
  {
    Xor(Pick(b, 1, e[0]), Xor(Pick(b, 2, e[1]), Xor(Pick(b, 4, e[2]), Xor(Pick(b, 8, e[3]),
    Xor(Pick(b, 16, e[4]), Xor(Pick(b, 32, e[5]), Xor(Pick(b, 64, e[6]), Pick(b, 128, e[7]))))))))
  }

  lemma ByteAsBits(b: bv8)
    ensures Combined(b, POWERS) == b as bv32
  {
  }

  lemma XorSelf(a: bv32)
    ensures Xor(a, a) == 0
  {
  }

  lemma StepsOfPick(n: nat, b: bv8, m: bv8, e: bv32)
    ensures Steps(n, Pick(b, m, e)) == Pick(b, m, Steps(n, e))
  {
    hide Steps, Xor;
    StepsLinear(n, e, e);
    XorSelf(e);
    XorSelf(Steps(n, e));
  }

  lemma StepsOfCombined(n: nat, b: bv8, e: seq<bv32>, f: seq<bv32>)
    requires |e| == |f| == 8 && forall j :: 0 <= j < 8 ==> Steps(n, e[j]) == f[j]
    ensures Steps(n, Combined(b, e)) == Combined(b, f)
  {
    hide Steps, Xor, Pick;
    var p7 := Pick(b, 128, e[7]);
    var p6 := Xor(Pick(b, 64, e[6]), p7);
    var p5 := Xor(Pick(b, 32, e[5]), p6);
    var p4 := Xor(Pick(b, 16, e[4]), p5);
    var p3 := Xor(Pick(b, 8, e[3]), p4);
    var p2 := Xor(Pick(b, 4, e[2]), p3);
    var p1 := Xor(Pick(b, 2, e[1]), p2);
    StepsLinear(n, Pick(b, 1, e[0]), p1);
    StepsLinear(n, Pick(b, 2, e[1]), p2);
    StepsLinear(n, Pick(b, 4, e[2]), p3);
    StepsLinear(n, Pick(b, 8, e[3]), p4);
    StepsLinear(n, Pick(b, 16, e[4]), p5);
    StepsLinear(n, Pick(b, 32, e[5]), p6);
    StepsLinear(n, Pick(b, 64, e[6]), p7);
    StepsOfPick(n, b, 1, e[0]);
    StepsOfPick(n, b, 2, e[1]);
    StepsOfPick(n, b, 4, e[2]);
    StepsOfPick(n, b, 8, e[3]);
    StepsOfPick(n, b, 16, e[4]);
    StepsOfPick(n, b, 32, e[5]);
    StepsOfPick(n, b, 64, e[6]);
    StepsOfPick(n, b, 128, e[7]);
  }

  /** Every entry of the table is the sum of the entries of its bits: the 64 numbers are the
      whole content of crc32.h. */
  lemma TableFromPowers(t: seq<bv32>, k: nat, b: bv8)
    requires IsCrcTable(t) && k < 8
    ensures At(t, k, b) == Combined(b, PowerEntries(k))
  {
    hide Steps, Combined, PowerEntries, At, IsCrcTable;
    SliceMeaning(t, k, b);
    ByteAsBits(b);
    PowerEntriesAreSteps(k);
    StepsOfCombined(8 * k + 8, b, POWERS, PowerEntries(k));
  }

  // ---- the check value of CRC-32 ----

  lemma FeedEvaluated(r: bv32, d: bv8, next: bv32)
    requires EightTimes(Xor(r, d as bv32)) == next
    ensures Feed(r, d) == next
  {
    StepsAreEightTimes(Xor(r, d as bv32));
  }

  /** The register after each character of the check input. */
  lemma CheckRegisters()
    ensures Feed(0xFFFFFFFF, 0x31) == 0x7C231048
    ensures Feed(0x7C231048, 0x32) == 0xB0ACBB32
    ensures Feed(0xB0ACBB32, 0x33) == 0x77B79C2D
    ensures Feed(0x77B79C2D, 0x34) == 0x641C1F5C
    ensures Feed(0x641C1F5C, 0x35) == 0x340AC5E3
    ensures Feed(0x340AC5E3, 0x36) == 0xF68D2C9E
    ensures Feed(0xF68D2C9E, 0x37) == 0xAFFC9660
    ensures Feed(0xAFFC9660, 0x38) == 0x651F2550
    ensures Feed(0x651F2550, 0x39) == 0x340BC6D9
  {
    FeedEvaluated(0xFFFFFFFF, 0x31, 0x7C231048);
    FeedEvaluated(0x7C231048, 0x32, 0xB0ACBB32);
    FeedEvaluated(0xB0ACBB32, 0x33, 0x77B79C2D);
    FeedEvaluated(0x77B79C2D, 0x34, 0x641C1F5C);
    FeedEvaluated(0x641C1F5C, 0x35, 0x340AC5E3);
    FeedEvaluated(0x340AC5E3, 0x36, 0xF68D2C9E);
    FeedEvaluated(0xF68D2C9E, 0x37, 0xAFFC9660);
    FeedEvaluated(0xAFFC9660, 0x38, 0x651F2550);
    FeedEvaluated(0x651F2550, 0x39, 0x340BC6D9);
  }

  lemma CrcOfNine(r: bv32, x: seq<bv8>)
    requires |x| == 9
    ensures var r4 := Feed(Feed(Feed(Feed(r, x[0]), x[1]), x[2]), x[3]);
      Crc(r, x) == Feed(Feed(Feed(Feed(Feed(r4, x[4]), x[5]), x[6]), x[7]), x[8])
  {
    hide Feed, Crc;
    CrcEmpty(r);
    CrcSnoc(r, x, 8);
    CrcSnoc(r, x, 7);
    CrcSnoc(r, x, 6);
    CrcSnoc(r, x, 5);
    CrcSnoc(r, x, 4);
    CrcSnoc(r, x, 3);
    CrcSnoc(r, x, 2);
    CrcSnoc(r, x, 1);
    CrcSnoc(r, x, 0);
    assert x[..9] == x && x[..0] == [];
  }

  /** Started from all ones and finalized, the update has the standard check value of CRC-32. */
  lemma CheckValue()
    ensures Crc32Finalize(Crc(0xFFFFFFFF, Consumed(CHECK_INPUT))) == 0xCBF43926
  {
    hide Feed, Crc;
    CheckRegisters();
    assert Consumed(CHECK_INPUT) == CHECK_INPUT;
    CrcOfNine(0xFFFFFFFF, CHECK_INPUT);
  }
}
