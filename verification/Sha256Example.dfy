/** The digest of "abc", round by round: the one-block example for SHA-256 published with FIPS 180-4. */
module Sha256Example {
  import opened Bytes
  import opened Hashing
  import opened Sha256Compression

  /** The bytes of "abc". */
  const ABC: seq<byte> := [0x61, 0x62, 0x63]

  /** The padded block as words, then the rest of the message schedule. */
  const W: seq<bv32> :=
    (([0x61626380, 0x00000000, 0x00000000, 0x00000000, 0x00000000, 0x00000000, 0x00000000, 0x00000000] +
      [0x00000000, 0x00000000, 0x00000000, 0x00000000, 0x00000000, 0x00000000, 0x00000000, 0x00000018]) +
     ([0x61626380, 0x000f0000, 0x7da86405, 0x600003c6, 0x3e9d7b78, 0x0183fc00, 0x12dcbfdb, 0xe2e2c38e] +
      [0xc8215c1a, 0xb73679a2, 0xe5bc3909, 0x32663c5b, 0x9d209d67, 0xec8726cb, 0x702138a4, 0xd3b7973b])) +
    (([0x93f5997f, 0x3b68ba73, 0xaff4ffc1, 0xf10a5c62, 0x0a8b3996, 0x72af830a, 0x9409e33e, 0x24641522] +
      [0x9f47bf94, 0xf0a64f5a, 0x3e246a79, 0x27333ba3, 0x0c4763f2, 0x840abf27, 0x7a290d5d, 0x065c43da]) +
     ([0xfb3e89cb, 0xcc7617db, 0xb9e66c34, 0xa9993667, 0x84badedd, 0xc21462bc, 0x1487472c, 0xb20f7a99] +
      [0xef57b9cd, 0xebe6b238, 0x9fe3095e, 0x78bc8d4b, 0xa43fcf15, 0x668b2ff8, 0xeeaba2cc, 0x12b1edeb]))

  // ---- The message block ----

  lemma PaddedBlock()
    ensures Pad(ABC) == [0x61, 0x62, 0x63, 0x80] + Zeros(59) + [24]
  {
    assert BE(24, 8) == [0, 0, 0, 0, 0, 0, 0, 24] by {
      assert BE(24, 2) == [0, 24];
      assert BE(24, 5) == [0, 0, 0, 0, 24];
    }
    assert ZeroCount(3) == 52;
  }

  function BlockRow(): seq<bv32> {
    [0x61626380] + seq(14, _ => 0) + [24]
  }

  lemma ByteValues()
    ensures ByteWord(0x61) == 0x61 && ByteWord(0x62) == 0x62 && ByteWord(0x63) == 0x63 && ByteWord(0x80) == 0x80
    ensures ByteWord(0) == 0 && ByteWord(24) == 24
  {
    assert ByteWord(1) == 1;
    assert ByteWord(2) == 2;
    assert ByteWord(3) == 3;
    assert ByteWord(6) == 6;
    assert ByteWord(12) == 12;
    assert ByteWord(24) == 24;
    assert ByteWord(48) == 48;
    assert ByteWord(49) == 49;
    assert ByteWord(4) == 4;
    assert ByteWord(8) == 8;
    assert ByteWord(16) == 16;
    assert ByteWord(32) == 32;
    assert ByteWord(64) == 64;
  }

  lemma BlockValues()
    ensures BEWord(0x61, 0x62, 0x63, 0x80) == 0x61626380 && BEWord(0, 0, 0, 24) == 24 && BEWord(0, 0, 0, 0) == 0
  {
    ByteValues();
    assert Pack4(0x61, 0x62, 0x63, 0x80) == 0x61626380;
    assert Pack4(0, 0, 0, 24) == 24;
    assert Pack4(0, 0, 0, 0) == 0;
  }

  lemma BlockIsRow()
    ensures BlockWords(Pad(ABC)) == BlockRow()
  {
    PaddedBlock();
    var p, m := Pad(ABC), BlockWords(Pad(ABC));
    BlockValues();
    assert m[0] == BEWord(p[0], p[1], p[2], p[3]) && m[15] == BEWord(p[60], p[61], p[62], p[63]);
    forall j | 1 <= j < 15 ensures m[j] == 0 {
      assert p[4 * j] == 0 && p[4 * j + 1] == 0 && p[4 * j + 2] == 0 && p[4 * j + 3] == 0;
    }
  }

  lemma RowIsW()
    ensures W[..16] == BlockRow()
  {
    assert W[0] == 0x61626380 && W[15] == 24;
    assert W[1] == 0 && W[2] == 0 && W[3] == 0 && W[4] == 0 && W[5] == 0 && W[6] == 0 && W[7] == 0;
    assert W[8] == 0 && W[9] == 0 && W[10] == 0 && W[11] == 0 && W[12] == 0 && W[13] == 0 && W[14] == 0;
    AllZero(W);
  }

  lemma AllZero(w: seq<bv32>)
    requires |w| == 64 && w[0] == 0x61626380 && w[15] == 24
    requires w[1] == 0 && w[2] == 0 && w[3] == 0 && w[4] == 0 && w[5] == 0 && w[6] == 0 && w[7] == 0
    requires w[8] == 0 && w[9] == 0 && w[10] == 0 && w[11] == 0 && w[12] == 0 && w[13] == 0 && w[14] == 0
    ensures w[..16] == BlockRow()
  {
    forall j | 1 <= j < 15 ensures w[j] == 0 {
      assert j in {1, 2, 3, 4, 5, 6, 7, 8, 9, 10, 11, 12, 13, 14};
    }
  }

  // ---- The schedule ----

  predicate Words(lo: nat, hi: nat)
    requires 16 <= lo && hi <= 64
    decreases hi - lo
  {
    lo >= hi || (W[lo] == NextWord(W[lo - 2], W[lo - 7], W[lo - 15], W[lo - 16]) && Words(lo + 1, hi))
  }

  lemma {:induction false} WordAt(lo: nat, hi: nat, t: nat)
    requires 16 <= lo <= t < hi <= 64 && Words(lo, hi)
    ensures W[t] == NextWord(W[t - 2], W[t - 7], W[t - 15], W[t - 16])
    decreases hi - lo
  {
    if lo < t {
      WordAt(lo + 1, hi, t);
    }
  }

  ghost predicate Recurs(t: nat) {
    16 <= t < 64 && W[t] == NextWord(W[t - 2], W[t - 7], W[t - 15], W[t - 16])
  }

  lemma {:induction false} WordsFrom(lo: nat, hi: nat)
    requires 16 <= lo <= hi <= 64 && Words(lo, hi)
    ensures forall t :: lo <= t < hi ==> Recurs(t)
  {
    forall t | lo <= t < hi ensures Recurs(t) {
      WordAt(lo, hi, t);
    }
  }

  lemma Words16()
    ensures forall t :: 16 <= t < 19 ==> Recurs(t)
  {
    WordsFrom(16, 19);
  }

  lemma Words19()
    ensures forall t :: 19 <= t < 22 ==> Recurs(t)
  {
    WordsFrom(19, 22);
  }

  lemma Words22()
    ensures forall t :: 22 <= t < 25 ==> Recurs(t)
  {
    WordsFrom(22, 25);
  }

  lemma Words25()
    ensures forall t :: 25 <= t < 28 ==> Recurs(t)
  {
    WordsFrom(25, 28);
  }

  lemma Words28()
    ensures forall t :: 28 <= t < 31 ==> Recurs(t)
  {
    WordsFrom(28, 31);
  }

  lemma Words31()
    ensures forall t :: 31 <= t < 34 ==> Recurs(t)
  {
    WordsFrom(31, 34);
  }

  lemma Words34()
    ensures forall t :: 34 <= t < 37 ==> Recurs(t)
  {
    WordsFrom(34, 37);
  }

  lemma Words37()
    ensures forall t :: 37 <= t < 40 ==> Recurs(t)
  {
    WordsFrom(37, 40);
  }

  lemma Words40()
    ensures forall t :: 40 <= t < 43 ==> Recurs(t)
  {
    WordsFrom(40, 43);
  }

  lemma Words43()
    ensures forall t :: 43 <= t < 46 ==> Recurs(t)
  {
    WordsFrom(43, 46);
  }

  lemma Words46()
    ensures forall t :: 46 <= t < 49 ==> Recurs(t)
  {
    WordsFrom(46, 49);
  }

  lemma Words49()
    ensures forall t :: 49 <= t < 52 ==> Recurs(t)
  {
    WordsFrom(49, 52);
  }

  lemma Words52()
    ensures forall t :: 52 <= t < 55 ==> Recurs(t)
  {
    WordsFrom(52, 55);
  }

  lemma Words55()
    ensures forall t :: 55 <= t < 58 ==> Recurs(t)
  {
    WordsFrom(55, 58);
  }

  lemma Words58()
    ensures forall t :: 58 <= t < 61 ==> Recurs(t)
  {
    WordsFrom(58, 61);
  }

  lemma Words61()
    ensures forall t :: 61 <= t < 64 ==> Recurs(t)
  {
    WordsFrom(61, 64);
  }

  lemma AllWords()
    ensures forall t :: 16 <= t < 64 ==> Recurs(t)
  {
    Words16();
    Words19();
    Words22();
    Words25();
    Words28();
    Words31();
    Words34();
    Words37();
    Words40();
    Words43();
    Words46();
    Words49();
    Words52();
    Words55();
    Words58();
    Words61();
  }

  lemma {:induction false} ScheduleIsW(t: nat)
    requires t < 64
    ensures Schedule(W[..16], t) == W[t]
  {
    AllWords();
    if t >= 16 {
      ScheduleIsW(t - 2);
      ScheduleIsW(t - 7);
      ScheduleIsW(t - 15);
      ScheduleIsW(t - 16);
      assert Recurs(t);
    }
  }

  // ---- The rounds: a and e after each round, the other variables being earlier ones ----

  type RoundFunction = (Regs, bv32, bv32) -> Regs

  /** The working variables round by round. */
  ghost predicate Runs(round: RoundFunction, ks: seq<bv32>, ws: seq<bv32>, run: nat -> Regs) {
    |ks| == |ws| == 64 && forall t: nat :: t < 64 ==> run(t + 1) == round(run(t), ks[t], ws[t])
  }

  /** One round with constant k and schedule word w computes a4 and e4. */
  predicate Step(round: RoundFunction, k: bv32, w: bv32, a0: bv32, a1: bv32, a2: bv32, a3: bv32, a4: bv32, e0: bv32,
                 e1: bv32, e2: bv32, e3: bv32, e4: bv32) {
    round(Regs(a3, a2, a1, a0, e3, e2, e1, e0), k, w) == Regs(a4, a3, a2, a1, e4, e3, e2, e1)
  }

  /** Four rounds with the constants k and the schedule words w. */
  lemma FourRounds(round: RoundFunction, ks: seq<bv32>, ws: seq<bv32>, run: nat -> Regs, t: nat, k0: bv32, k1: bv32,
                   k2: bv32, k3: bv32, w0: bv32, w1: bv32, w2: bv32, w3: bv32, a0: bv32, a1: bv32, a2: bv32, a3: bv32,
                   a4: bv32, a5: bv32, a6: bv32, a7: bv32, e0: bv32, e1: bv32, e2: bv32, e3: bv32, e4: bv32, e5: bv32,
                   e6: bv32, e7: bv32)
    requires Runs(round, ks, ws, run) && t <= 60
    requires ks[t] == k0 && ks[t + 1] == k1 && ks[t + 2] == k2 && ks[t + 3] == k3
    requires ws[t] == w0 && ws[t + 1] == w1 && ws[t + 2] == w2 && ws[t + 3] == w3
    requires Step(round, k0, w0, a0, a1, a2, a3, a4, e0, e1, e2, e3, e4)
    requires Step(round, k1, w1, a1, a2, a3, a4, a5, e1, e2, e3, e4, e5)
    requires Step(round, k2, w2, a2, a3, a4, a5, a6, e2, e3, e4, e5, e6)
    requires Step(round, k3, w3, a3, a4, a5, a6, a7, e3, e4, e5, e6, e7)
    requires run(t) == Regs(a3, a2, a1, a0, e3, e2, e1, e0)
    ensures run(t + 4) == Regs(a7, a6, a5, a4, e7, e6, e5, e4)
  {
    assert run(t + 1 + 1) == round(run(t + 1), k1, w1);
    assert run(t + 2 + 1) == round(run(t + 2), k2, w2);
    assert run(t + 3 + 1) == round(run(t + 3), k3, w3);
  }

  lemma Rounds0(run: nat -> Regs)
    requires Runs(Round, K, W, run)
    requires run(0)
          == Regs(0x6a09e667, 0xbb67ae85, 0x3c6ef372, 0xa54ff53a, 0x510e527f, 0x9b05688c, 0x1f83d9ab, 0x5be0cd19)
    ensures run(4)
         == Regs(0xd550f666, 0xc8c347a7, 0x5a6ad9ad, 0x5d6aebcd, 0x24e00850, 0xf92939eb, 0x78ce7989, 0xfa2a4622)
  {
    FourRounds(Round, K, W, run, 0,
               0x428a2f98, 0x71374491, 0xb5c0fbcf, 0xe9b5dba5, 0x61626380, 0x00000000, 0x00000000, 0x00000000,
               0xa54ff53a, 0x3c6ef372, 0xbb67ae85, 0x6a09e667, 0x5d6aebcd, 0x5a6ad9ad, 0xc8c347a7, 0xd550f666,
               0x5be0cd19, 0x1f83d9ab, 0x9b05688c, 0x510e527f, 0xfa2a4622, 0x78ce7989, 0xf92939eb, 0x24e00850);
  }

  lemma Rounds4(run: nat -> Regs)
    requires Runs(Round, K, W, run)
    requires run(4)
          == Regs(0xd550f666, 0xc8c347a7, 0x5a6ad9ad, 0x5d6aebcd, 0x24e00850, 0xf92939eb, 0x78ce7989, 0xfa2a4622)
    ensures run(8)
         == Regs(0x85a07b5f, 0xe5030380, 0x2b4209f5, 0x04409a6a, 0x0c657a79, 0x9b27a401, 0x714260ad, 0x43ada245)
  {
    FourRounds(Round, K, W, run, 4,
               0x3956c25b, 0x59f111f1, 0x923f82a4, 0xab1c5ed5, 0x00000000, 0x00000000, 0x00000000, 0x00000000,
               0x5d6aebcd, 0x5a6ad9ad, 0xc8c347a7, 0xd550f666, 0x04409a6a, 0x2b4209f5, 0xe5030380, 0x85a07b5f,
               0xfa2a4622, 0x78ce7989, 0xf92939eb, 0x24e00850, 0x43ada245, 0x714260ad, 0x9b27a401, 0x0c657a79);
  }

  lemma Rounds8(run: nat -> Regs)
    requires Runs(Round, K, W, run)
    requires run(8)
          == Regs(0x85a07b5f, 0xe5030380, 0x2b4209f5, 0x04409a6a, 0x0c657a79, 0x9b27a401, 0x714260ad, 0x43ada245)
    ensures run(12)
         == Regs(0xf71fc5a9, 0x4798a3f4, 0x8c87346b, 0x8e04ecb9, 0x816fd6e9, 0x436b23e8, 0x1cc92596, 0x32ca2d8c)
  {
    FourRounds(Round, K, W, run, 8,
               0xd807aa98, 0x12835b01, 0x243185be, 0x550c7dc3, 0x00000000, 0x00000000, 0x00000000, 0x00000000,
               0x04409a6a, 0x2b4209f5, 0xe5030380, 0x85a07b5f, 0x8e04ecb9, 0x8c87346b, 0x4798a3f4, 0xf71fc5a9,
               0x43ada245, 0x714260ad, 0x9b27a401, 0x0c657a79, 0x32ca2d8c, 0x1cc92596, 0x436b23e8, 0x816fd6e9);
  }

  lemma Rounds12(run: nat -> Regs)
    requires Runs(Round, K, W, run)
    requires run(12)
          == Regs(0xf71fc5a9, 0x4798a3f4, 0x8c87346b, 0x8e04ecb9, 0x816fd6e9, 0x436b23e8, 0x1cc92596, 0x32ca2d8c)
    ensures run(16)
         == Regs(0xb0fa238e, 0xc0645fde, 0xd932eb16, 0x87912990, 0x07590dcd, 0x0b92f20c, 0x745a48de, 0x1e578218)
  {
    FourRounds(Round, K, W, run, 12,
               0x72be5d74, 0x80deb1fe, 0x9bdc06a7, 0xc19bf174, 0x00000000, 0x00000000, 0x00000000, 0x00000018,
               0x8e04ecb9, 0x8c87346b, 0x4798a3f4, 0xf71fc5a9, 0x87912990, 0xd932eb16, 0xc0645fde, 0xb0fa238e,
               0x32ca2d8c, 0x1cc92596, 0x436b23e8, 0x816fd6e9, 0x1e578218, 0x745a48de, 0x0b92f20c, 0x07590dcd);
  }

  lemma Rounds16(run: nat -> Regs)
    requires Runs(Round, K, W, run)
    requires run(16)
          == Regs(0xb0fa238e, 0xc0645fde, 0xd932eb16, 0x87912990, 0x07590dcd, 0x0b92f20c, 0x745a48de, 0x1e578218)
    ensures run(20)
         == Regs(0xe1f20c33, 0xfe777bbf, 0xc2fbd9d1, 0x21da9a9b, 0xb0638179, 0xcc899961, 0x846ee454, 0x8034229c)
  {
    FourRounds(Round, K, W, run, 16,
               0xe49b69c1, 0xefbe4786, 0x0fc19dc6, 0x240ca1cc, 0x61626380, 0x000f0000, 0x7da86405, 0x600003c6,
               0x87912990, 0xd932eb16, 0xc0645fde, 0xb0fa238e, 0x21da9a9b, 0xc2fbd9d1, 0xfe777bbf, 0xe1f20c33,
               0x1e578218, 0x745a48de, 0x0b92f20c, 0x07590dcd, 0x8034229c, 0x846ee454, 0xcc899961, 0xb0638179);
  }

  lemma Rounds20(run: nat -> Regs)
    requires Runs(Round, K, W, run)
    requires run(20)
          == Regs(0xe1f20c33, 0xfe777bbf, 0xc2fbd9d1, 0x21da9a9b, 0xb0638179, 0xcc899961, 0x846ee454, 0x8034229c)
    ensures run(24)
         == Regs(0xc5d53d8d, 0xa7a3623f, 0xc2606d6d, 0x9dc68b63, 0xaa47c347, 0x49f5114a, 0xe1257970, 0x8ada8930)
  {
    FourRounds(Round, K, W, run, 20,
               0x2de92c6f, 0x4a7484aa, 0x5cb0a9dc, 0x76f988da, 0x3e9d7b78, 0x0183fc00, 0x12dcbfdb, 0xe2e2c38e,
               0x21da9a9b, 0xc2fbd9d1, 0xfe777bbf, 0xe1f20c33, 0x9dc68b63, 0xc2606d6d, 0xa7a3623f, 0xc5d53d8d,
               0x8034229c, 0x846ee454, 0xcc899961, 0xb0638179, 0x8ada8930, 0xe1257970, 0x49f5114a, 0xaa47c347);
  }

  lemma Rounds24(run: nat -> Regs)
    requires Runs(Round, K, W, run)
    requires run(24)
          == Regs(0xc5d53d8d, 0xa7a3623f, 0xc2606d6d, 0x9dc68b63, 0xaa47c347, 0x49f5114a, 0xe1257970, 0x8ada8930)
    ensures run(28)
         == Regs(0x77d37528, 0xb62ec4bc, 0xcde8037d, 0x1c2c2838, 0xedffbff8, 0xc74c6516, 0x14383d8e, 0x2823ef91)
  {
    FourRounds(Round, K, W, run, 24,
               0x983e5152, 0xa831c66d, 0xb00327c8, 0xbf597fc7, 0xc8215c1a, 0xb73679a2, 0xe5bc3909, 0x32663c5b,
               0x9dc68b63, 0xc2606d6d, 0xa7a3623f, 0xc5d53d8d, 0x1c2c2838, 0xcde8037d, 0xb62ec4bc, 0x77d37528,
               0x8ada8930, 0xe1257970, 0x49f5114a, 0xaa47c347, 0x2823ef91, 0x14383d8e, 0xc74c6516, 0xedffbff8);
  }

  lemma Rounds28(run: nat -> Regs)
    requires Runs(Round, K, W, run)
    requires run(28)
          == Regs(0x77d37528, 0xb62ec4bc, 0xcde8037d, 0x1c2c2838, 0xedffbff8, 0xc74c6516, 0x14383d8e, 0x2823ef91)
    ensures run(32)
         == Regs(0x73b33bf5, 0xea992a22, 0xa0060b30, 0x363482c9, 0xba591112, 0x0109ab3a, 0xade79437, 0x6112a3b7)
  {
    FourRounds(Round, K, W, run, 28,
               0xc6e00bf3, 0xd5a79147, 0x06ca6351, 0x14292967, 0x9d209d67, 0xec8726cb, 0x702138a4, 0xd3b7973b,
               0x1c2c2838, 0xcde8037d, 0xb62ec4bc, 0x77d37528, 0x363482c9, 0xa0060b30, 0xea992a22, 0x73b33bf5,
               0x2823ef91, 0x14383d8e, 0xc74c6516, 0xedffbff8, 0x6112a3b7, 0xade79437, 0x0109ab3a, 0xba591112);
  }

  lemma Rounds32(run: nat -> Regs)
    requires Runs(Round, K, W, run)
    requires run(32)
          == Regs(0x73b33bf5, 0xea992a22, 0xa0060b30, 0x363482c9, 0xba591112, 0x0109ab3a, 0xade79437, 0x6112a3b7)
    ensures run(36)
         == Regs(0x65a0cfe4, 0xa9a7738c, 0xfe604df5, 0x98e12507, 0xf4b002d6, 0x085f3833, 0x59249dd3, 0x9cd9f5f6)
  {
    FourRounds(Round, K, W, run, 32,
               0x27b70a85, 0x2e1b2138, 0x4d2c6dfc, 0x53380d13, 0x93f5997f, 0x3b68ba73, 0xaff4ffc1, 0xf10a5c62,
               0x363482c9, 0xa0060b30, 0xea992a22, 0x73b33bf5, 0x98e12507, 0xfe604df5, 0xa9a7738c, 0x65a0cfe4,
               0x6112a3b7, 0xade79437, 0x0109ab3a, 0xba591112, 0x9cd9f5f6, 0x59249dd3, 0x085f3833, 0xf4b002d6);
  }

  lemma Rounds36(run: nat -> Regs)
    requires Runs(Round, K, W, run)
    requires run(36)
          == Regs(0x65a0cfe4, 0xa9a7738c, 0xfe604df5, 0x98e12507, 0xf4b002d6, 0x085f3833, 0x59249dd3, 0x9cd9f5f6)
    ensures run(40)
         == Regs(0x79ea687a, 0x6dc57a8a, 0x34df1604, 0x41a65cb1, 0x1efbc0a0, 0xf0781bc8, 0xa507a53d, 0x0772a26b)
  {
    FourRounds(Round, K, W, run, 36,
               0x650a7354, 0x766a0abb, 0x81c2c92e, 0x92722c85, 0x0a8b3996, 0x72af830a, 0x9409e33e, 0x24641522,
               0x98e12507, 0xfe604df5, 0xa9a7738c, 0x65a0cfe4, 0x41a65cb1, 0x34df1604, 0x6dc57a8a, 0x79ea687a,
               0x9cd9f5f6, 0x59249dd3, 0x085f3833, 0xf4b002d6, 0x0772a26b, 0xa507a53d, 0xf0781bc8, 0x1efbc0a0);
  }

  lemma Rounds40(run: nat -> Regs)
    requires Runs(Round, K, W, run)
    requires run(40)
          == Regs(0x79ea687a, 0x6dc57a8a, 0x34df1604, 0x41a65cb1, 0x1efbc0a0, 0xf0781bc8, 0xa507a53d, 0x0772a26b)
    ensures run(44)
         == Regs(0x9d4baf93, 0x17aa0dfe, 0xdf46652f, 0xd6670766, 0xfda24c2e, 0xdecd4715, 0x838b2711, 0x26352d63)
  {
    FourRounds(Round, K, W, run, 40,
               0xa2bfe8a1, 0xa81a664b, 0xc24b8b70, 0xc76c51a3, 0x9f47bf94, 0xf0a64f5a, 0x3e246a79, 0x27333ba3,
               0x41a65cb1, 0x34df1604, 0x6dc57a8a, 0x79ea687a, 0xd6670766, 0xdf46652f, 0x17aa0dfe, 0x9d4baf93,
               0x0772a26b, 0xa507a53d, 0xf0781bc8, 0x1efbc0a0, 0x26352d63, 0x838b2711, 0xdecd4715, 0xfda24c2e);
  }

  lemma Rounds44(run: nat -> Regs)
    requires Runs(Round, K, W, run)
    requires run(44)
          == Regs(0x9d4baf93, 0x17aa0dfe, 0xdf46652f, 0xd6670766, 0xfda24c2e, 0xdecd4715, 0x838b2711, 0x26352d63)
    ensures run(48)
         == Regs(0x4172328d, 0xa14c14b0, 0x72ab4b91, 0x26628815, 0xfecf0bc6, 0xd57b94a9, 0xb7755da1, 0xa80f11f0)
  {
    FourRounds(Round, K, W, run, 44,
               0xd192e819, 0xd6990624, 0xf40e3585, 0x106aa070, 0x0c4763f2, 0x840abf27, 0x7a290d5d, 0x065c43da,
               0xd6670766, 0xdf46652f, 0x17aa0dfe, 0x9d4baf93, 0x26628815, 0x72ab4b91, 0xa14c14b0, 0x4172328d,
               0x26352d63, 0x838b2711, 0xdecd4715, 0xfda24c2e, 0xa80f11f0, 0xb7755da1, 0xd57b94a9, 0xfecf0bc6);
  }

  lemma Rounds48(run: nat -> Regs)
    requires Runs(Round, K, W, run)
    requires run(48)
          == Regs(0x4172328d, 0xa14c14b0, 0x72ab4b91, 0x26628815, 0xfecf0bc6, 0xd57b94a9, 0xb7755da1, 0xa80f11f0)
    ensures run(52)
         == Regs(0x886e7a22, 0x7a0508a1, 0xf11bfaa8, 0x05757ceb, 0x49231c1e, 0x52f1ccf7, 0x6e5c390c, 0xbd714038)
  {
    FourRounds(Round, K, W, run, 48,
               0x19a4c116, 0x1e376c08, 0x2748774c, 0x34b0bcb5, 0xfb3e89cb, 0xcc7617db, 0xb9e66c34, 0xa9993667,
               0x26628815, 0x72ab4b91, 0xa14c14b0, 0x4172328d, 0x05757ceb, 0xf11bfaa8, 0x7a0508a1, 0x886e7a22,
               0xa80f11f0, 0xb7755da1, 0xd57b94a9, 0xfecf0bc6, 0xbd714038, 0x6e5c390c, 0x52f1ccf7, 0x49231c1e);
  }

  lemma Rounds52(run: nat -> Regs)
    requires Runs(Round, K, W, run)
    requires run(52)
          == Regs(0x886e7a22, 0x7a0508a1, 0xf11bfaa8, 0x05757ceb, 0x49231c1e, 0x52f1ccf7, 0x6e5c390c, 0xbd714038)
    ensures run(56)
         == Regs(0x38cc9913, 0x3ec45cdb, 0xf5702fdb, 0x101fd28f, 0x54cb266b, 0xe50e1b4f, 0x9f4787c3, 0x529e7d00)
  {
    FourRounds(Round, K, W, run, 52,
               0x391c0cb3, 0x4ed8aa4a, 0x5b9cca4f, 0x682e6ff3, 0x84badedd, 0xc21462bc, 0x1487472c, 0xb20f7a99,
               0x05757ceb, 0xf11bfaa8, 0x7a0508a1, 0x886e7a22, 0x101fd28f, 0xf5702fdb, 0x3ec45cdb, 0x38cc9913,
               0xbd714038, 0x6e5c390c, 0x52f1ccf7, 0x49231c1e, 0x529e7d00, 0x9f4787c3, 0xe50e1b4f, 0x54cb266b);
  }

  lemma Rounds56(run: nat -> Regs)
    requires Runs(Round, K, W, run)
    requires run(56)
          == Regs(0x38cc9913, 0x3ec45cdb, 0xf5702fdb, 0x101fd28f, 0x54cb266b, 0xe50e1b4f, 0x9f4787c3, 0x529e7d00)
    ensures run(60)
         == Regs(0xb6ae8fff, 0xffb70472, 0xc062d46f, 0xfcd1887b, 0xb21bad3d, 0x6d83bfc6, 0x7e44008e, 0x9b5e906c)
  {
    FourRounds(Round, K, W, run, 56,
               0x748f82ee, 0x78a5636f, 0x84c87814, 0x8cc70208, 0xef57b9cd, 0xebe6b238, 0x9fe3095e, 0x78bc8d4b,
               0x101fd28f, 0xf5702fdb, 0x3ec45cdb, 0x38cc9913, 0xfcd1887b, 0xc062d46f, 0xffb70472, 0xb6ae8fff,
               0x529e7d00, 0x9f4787c3, 0xe50e1b4f, 0x54cb266b, 0x9b5e906c, 0x7e44008e, 0x6d83bfc6, 0xb21bad3d);
  }

  lemma Rounds60(run: nat -> Regs)
    requires Runs(Round, K, W, run)
    requires run(60)
          == Regs(0xb6ae8fff, 0xffb70472, 0xc062d46f, 0xfcd1887b, 0xb21bad3d, 0x6d83bfc6, 0x7e44008e, 0x9b5e906c)
    ensures run(64)
         == Regs(0x506e3058, 0xd39a2165, 0x04d24d6c, 0xb85e2ce9, 0x5ef50f24, 0xfb121210, 0x948d25b6, 0x961f4894)
  {
    FourRounds(Round, K, W, run, 60,
               0x90befffa, 0xa4506ceb, 0xbef9a3f7, 0xc67178f2, 0xa43fcf15, 0x668b2ff8, 0xeeaba2cc, 0x12b1edeb,
               0xfcd1887b, 0xc062d46f, 0xffb70472, 0xb6ae8fff, 0xb85e2ce9, 0x04d24d6c, 0xd39a2165, 0x506e3058,
               0x9b5e906c, 0x7e44008e, 0x6d83bfc6, 0xb21bad3d, 0x961f4894, 0x948d25b6, 0xfb121210, 0x5ef50f24);
  }

  /** The working variables of the compression of the block. */
  ghost function Run(): nat -> Regs {
    (t: nat) => if t <= 64 then Rounds(W[..16], RegsOf(H0), t) else RegsOf(H0)
  }

  lemma RunsOn()
    ensures Runs(Round, K, W, Run())
  {
    forall t: nat | t < 64 ensures Run()(t + 1) == Round(Run()(t), K[t], W[t]) {
      ScheduleIsW(t);
    }
  }

  lemma AllRounds(run: nat -> Regs)
    requires Runs(Round, K, W, run) && run(0) == RegsOf(H0)
    ensures run(64)
         == Regs(0x506e3058, 0xd39a2165, 0x04d24d6c, 0xb85e2ce9, 0x5ef50f24, 0xfb121210, 0x948d25b6, 0x961f4894)
  {
    Rounds0(run);
    Rounds4(run);
    Rounds8(run);
    Rounds12(run);
    Rounds16(run);
    Rounds20(run);
    Rounds24(run);
    Rounds28(run);
    Rounds32(run);
    Rounds36(run);
    Rounds40(run);
    Rounds44(run);
    Rounds48(run);
    Rounds52(run);
    Rounds56(run);
    Rounds60(run);
  }

  const DIGEST: seq<bv32> :=
    [0xba7816bf, 0x8f01cfea, 0x414140de, 0x5dae2223, 0xb00361a3, 0x96177a9c, 0xb410ff61, 0xf20015ad]

  lemma AddedUp(r: Regs)
    requires r == Regs(0x506e3058, 0xd39a2165, 0x04d24d6c, 0xb85e2ce9, 0x5ef50f24, 0xfb121210, 0x948d25b6, 0x961f4894)
    ensures AddRegs(H0, r) == DIGEST
  {
    assert AddRegs(H0, r)[0] == DIGEST[0] && AddRegs(H0, r)[1] == DIGEST[1];
    assert AddRegs(H0, r)[2] == DIGEST[2] && AddRegs(H0, r)[3] == DIGEST[3];
    assert AddRegs(H0, r)[4] == DIGEST[4] && AddRegs(H0, r)[5] == DIGEST[5];
    assert AddRegs(H0, r)[6] == DIGEST[6] && AddRegs(H0, r)[7] == DIGEST[7];
  }

  lemma {:induction false} LastRound(m: seq<bv32>, run: nat -> Regs, n: nat)
    requires |m| == 16 && n == 64 && run(n) == Rounds(m, RegsOf(H0), n)
    ensures CompressWords(H0, m) == AddRegs(H0, run(64))
  {
  }

  lemma Compressed()
    ensures CompressWords(H0, W[..16]) == DIGEST
  {
    RunsOn();
    AllRounds(Run());
    LastRound(W[..16], Run(), 64);
    AddedUp(Run()(64));
  }

  lemma FirstHalf()
    ensures WordBytes(0xba7816bf) == [0xba, 0x78, 0x16, 0xbf] && WordBytes(0x8f01cfea) == [0x8f, 0x01, 0xcf, 0xea]
    ensures WordBytes(0x414140de) == [0x41, 0x41, 0x40, 0xde] && WordBytes(0x5dae2223) == [0x5d, 0xae, 0x22, 0x23]
  {
  }

  lemma SecondHalf()
    ensures WordBytes(0xb00361a3) == [0xb0, 0x03, 0x61, 0xa3] && WordBytes(0x96177a9c) == [0x96, 0x17, 0x7a, 0x9c]
    ensures WordBytes(0xb410ff61) == [0xb4, 0x10, 0xff, 0x61] && WordBytes(0xf20015ad) == [0xf2, 0x00, 0x15, 0xad]
  {
  }

  lemma {:induction false} DigestAt(h: seq<bv32>, i: nat)
    requires i < |h|
    ensures DigestBytes(h)[4 * i..4 * i + 4] == WordBytes(h[i])
  {
    if i > 0 {
      DigestAt(h[1..], i - 1);
      var rest := DigestBytes(h[1..]);
      assert DigestBytes(h)[4 * i..4 * i + 4] == rest[4 * (i - 1)..4 * (i - 1) + 4];
    }
  }

  lemma FromSlices(s: seq<byte>)
    requires |s| == 32
    ensures s == s[0..4] + s[4..8] + s[8..12] + s[12..16] + s[16..20] + s[20..24] + s[24..28] + s[28..32]
  {
  }

  lemma DigestPrinted()
    ensures DigestBytes(DIGEST)
         == [0xba, 0x78, 0x16, 0xbf] + [0x8f, 0x01, 0xcf, 0xea] + [0x41, 0x41, 0x40, 0xde] + [0x5d, 0xae, 0x22, 0x23] +
            [0xb0, 0x03, 0x61, 0xa3] + [0x96, 0x17, 0x7a, 0x9c] + [0xb4, 0x10, 0xff, 0x61] + [0xf2, 0x00, 0x15, 0xad]
  {
    FirstHalf();
    SecondHalf();
    DigestAt(DIGEST, 0);
    DigestAt(DIGEST, 1);
    DigestAt(DIGEST, 2);
    DigestAt(DIGEST, 3);
    DigestAt(DIGEST, 4);
    DigestAt(DIGEST, 5);
    DigestAt(DIGEST, 6);
    DigestAt(DIGEST, 7);
    FromSlices(DigestBytes(DIGEST));
  }

  /** SHA-256 of "abc". */
  lemma AbcDigest()
    ensures Sha256(ABC)
         == [0xba, 0x78, 0x16, 0xbf] + [0x8f, 0x01, 0xcf, 0xea] + [0x41, 0x41, 0x40, 0xde] + [0x5d, 0xae, 0x22, 0x23] +
            [0xb0, 0x03, 0x61, 0xa3] + [0x96, 0x17, 0x7a, 0x9c] + [0xb4, 0x10, 0xff, 0x61] + [0xf2, 0x00, 0x15, 0xad]
  {
    BlockIsRow();
    RowIsW();
    PaddedBlock();
    var p := Pad(ABC);
    assert BlockOf(p, 0) == p && |p| / 64 == 1;
    assert Fold(Compress, p, 1) == Compress(Fold(Compress, p, 0), BlockOf(p, 0));
    Compressed();
    DigestPrinted();
  }
}
