/** The published digest of the three bytes "abc", word by word: with it every rotation and shift
    amount, the round function, the schedule and the padding of a short message are fixed. */
module Sha256Abc {
  import opened Sha256

  const ABC: seq<Byte> := [0x61, 0x62, 0x63]

  /** The one block that "abc" pads to. */
  function Block(): (block: seq<Word>)
    ensures |block| == 16
  {
    [0x61626380, 0x00000000, 0x00000000, 0x00000000, 0x00000000, 0x00000000, 0x00000000, 0x00000000,
     0x00000000, 0x00000000, 0x00000000, 0x00000000, 0x00000000, 0x00000000, 0x00000000, 0x00000018]
  }

  // ------------------------------------------------------------------ stating the example

  /** Schedule word t. */
  ghost predicate WordAt(t: nat, w: Word)
  {
    forall u: nat :: u == t ==> Schedule(Block(), u) == w
  }

  /** Schedule words t to t + 7. */
  ghost predicate Words(t: nat, w0: Word, w1: Word, w2: Word, w3: Word, w4: Word, w5: Word, w6: Word, w7: Word)
  {
    && WordAt(t, w0) && WordAt(t + 1, w1) && WordAt(t + 2, w2) && WordAt(t + 3, w3)
    && WordAt(t + 4, w4) && WordAt(t + 5, w5) && WordAt(t + 6, w6) && WordAt(t + 7, w7)
  }

  /** The registers after t rounds. */
  ghost predicate State(t: nat, r: Regs)
  {
    forall u: nat :: u == t && u <= 64 ==> Rounds(Block(), INITIAL, u) == r
  }

  /** Round constants t to t + 7. */
  ghost predicate Constants(t: nat, k0: Word, k1: Word, k2: Word, k3: Word, k4: Word, k5: Word, k6: Word, k7: Word)
    requires t <= 56
  {
    && RoundConstant(t) == k0 && RoundConstant(t + 1) == k1 && RoundConstant(t + 2) == k2
    && RoundConstant(t + 3) == k3 && RoundConstant(t + 4) == k4 && RoundConstant(t + 5) == k5
    && RoundConstant(t + 6) == k6 && RoundConstant(t + 7) == k7
  }

  lemma FirstWords()
    ensures Words(0, 0x61626380, 0x00000000, 0x00000000, 0x00000000, 0x00000000, 0x00000000, 0x00000000, 0x00000000)
    ensures Words(8, 0x00000000, 0x00000000, 0x00000000, 0x00000000, 0x00000000, 0x00000000, 0x00000000, 0x00000018)
  {
    hide Schedule;
    ScheduleStart(Block());
  }

  /** One schedule word from the four it is made of. */
  lemma NextAt(t: nat, w16: Word, w15: Word, w7: Word, w2: Word)
    requires t >= 16 && WordAt(t - 16, w16) && WordAt(t - 15, w15) && WordAt(t - 7, w7) && WordAt(t - 2, w2)
    ensures WordAt(t, NextWord(w16, w15, w7, w2))
  {
    hide Schedule, NextWord, Block;
    ScheduleNext(Block(), t);
  }

  /** Eight schedule words from the sixteen before them. */
  lemma NextEight(t: nat, v0: Word, v1: Word, v2: Word, v3: Word, v4: Word, v5: Word, v6: Word, v7: Word,
      v8: Word, v9: Word, v10: Word, v11: Word, v12: Word, v13: Word, v14: Word, v15: Word,
      w0: Word, w1: Word, w2: Word, w3: Word, w4: Word, w5: Word, w6: Word, w7: Word)
    requires t >= 16 && Words(t - 16, v0, v1, v2, v3, v4, v5, v6, v7)
    requires Words(t - 8, v8, v9, v10, v11, v12, v13, v14, v15)
    requires w0 == NextWord(v0, v1, v9, v14)
    requires w1 == NextWord(v1, v2, v10, v15)
    requires w2 == NextWord(v2, v3, v11, w0)
    requires w3 == NextWord(v3, v4, v12, w1)
    requires w4 == NextWord(v4, v5, v13, w2)
    requires w5 == NextWord(v5, v6, v14, w3)
    requires w6 == NextWord(v6, v7, v15, w4)
    requires w7 == NextWord(v7, v8, w0, w5)
    ensures Words(t, w0, w1, w2, w3, w4, w5, w6, w7)
  {
    hide WordAt, NextWord;
    NextAt(t, v0, v1, v9, v14);
    NextAt(t + 1, v1, v2, v10, v15);
    NextAt(t + 2, v2, v3, v11, w0);
    NextAt(t + 3, v3, v4, v12, w1);
    NextAt(t + 4, v4, v5, v13, w2);
    NextAt(t + 5, v5, v6, v14, w3);
    NextAt(t + 6, v6, v7, v15, w4);
    NextAt(t + 7, v7, v8, w0, w5);
  }

  /** Eight rounds on known words: the new values of a and e are a0 to a7 and e0 to e7. */
  lemma EightRounds(t: nat, a: Word, b: Word, c: Word, d: Word, e: Word, f: Word, g: Word, h: Word,
      k0: Word, k1: Word, k2: Word, k3: Word, k4: Word, k5: Word, k6: Word, k7: Word,
      w0: Word, w1: Word, w2: Word, w3: Word, w4: Word, w5: Word, w6: Word, w7: Word,
      a0: Word, a1: Word, a2: Word, a3: Word, a4: Word, a5: Word, a6: Word, a7: Word,
      e0: Word, e1: Word, e2: Word, e3: Word, e4: Word, e5: Word, e6: Word, e7: Word)
    requires t <= 56 && State(t, Regs(a, b, c, d, e, f, g, h))
    requires Words(t, w0, w1, w2, w3, w4, w5, w6, w7)
    requires Constants(t, k0, k1, k2, k3, k4, k5, k6, k7)
    requires Round(Regs(a, b, c, d, e, f, g, h), k0, w0) == Regs(a0, a, b, c, e0, e, f, g)
    requires Round(Regs(a0, a, b, c, e0, e, f, g), k1, w1) == Regs(a1, a0, a, b, e1, e0, e, f)
    requires Round(Regs(a1, a0, a, b, e1, e0, e, f), k2, w2) == Regs(a2, a1, a0, a, e2, e1, e0, e)
    requires Round(Regs(a2, a1, a0, a, e2, e1, e0, e), k3, w3) == Regs(a3, a2, a1, a0, e3, e2, e1, e0)
    requires Round(Regs(a3, a2, a1, a0, e3, e2, e1, e0), k4, w4) == Regs(a4, a3, a2, a1, e4, e3, e2, e1)
    requires Round(Regs(a4, a3, a2, a1, e4, e3, e2, e1), k5, w5) == Regs(a5, a4, a3, a2, e5, e4, e3, e2)
    requires Round(Regs(a5, a4, a3, a2, e5, e4, e3, e2), k6, w6) == Regs(a6, a5, a4, a3, e6, e5, e4, e3)
    requires Round(Regs(a6, a5, a4, a3, e6, e5, e4, e3), k7, w7) == Regs(a7, a6, a5, a4, e7, e6, e5, e4)
    ensures State(t + 8, Regs(a7, a6, a5, a4, e7, e6, e5, e4))
  {
    hide Schedule, Round, Rounds, RoundConstant;
    RoundsStep(Block(), INITIAL, t);
    RoundsStep(Block(), INITIAL, t + 1);
    RoundsStep(Block(), INITIAL, t + 2);
    RoundsStep(Block(), INITIAL, t + 3);
    RoundsStep(Block(), INITIAL, t + 4);
    RoundsStep(Block(), INITIAL, t + 5);
    RoundsStep(Block(), INITIAL, t + 6);
    RoundsStep(Block(), INITIAL, t + 7);
  }

  /** The schedule of the worked example. */
  lemma ExampleWords()
    ensures Words(0, 0x61626380, 0x00000000, 0x00000000, 0x00000000, 0x00000000, 0x00000000, 0x00000000, 0x00000000)
    ensures Words(8, 0x00000000, 0x00000000, 0x00000000, 0x00000000, 0x00000000, 0x00000000, 0x00000000, 0x00000018)
    ensures Words(16, 0x61626380, 0x000f0000, 0x7da86405, 0x600003c6, 0x3e9d7b78, 0x0183fc00, 0x12dcbfdb, 0xe2e2c38e)
    ensures Words(24, 0xc8215c1a, 0xb73679a2, 0xe5bc3909, 0x32663c5b, 0x9d209d67, 0xec8726cb, 0x702138a4, 0xd3b7973b)
    ensures Words(32, 0x93f5997f, 0x3b68ba73, 0xaff4ffc1, 0xf10a5c62, 0x0a8b3996, 0x72af830a, 0x9409e33e, 0x24641522)
    ensures Words(40, 0x9f47bf94, 0xf0a64f5a, 0x3e246a79, 0x27333ba3, 0x0c4763f2, 0x840abf27, 0x7a290d5d, 0x065c43da)
    ensures Words(48, 0xfb3e89cb, 0xcc7617db, 0xb9e66c34, 0xa9993667, 0x84badedd, 0xc21462bc, 0x1487472c, 0xb20f7a99)
    ensures Words(56, 0xef57b9cd, 0xebe6b238, 0x9fe3095e, 0x78bc8d4b, 0xa43fcf15, 0x668b2ff8, 0xeeaba2cc, 0x12b1edeb)
  {
    hide Words;
    FirstWords();
    NextEight(16, 0x61626380, 0x00000000, 0x00000000, 0x00000000, 0x00000000, 0x00000000, 0x00000000, 0x00000000,
              0x00000000, 0x00000000, 0x00000000, 0x00000000, 0x00000000, 0x00000000, 0x00000000, 0x00000018,
              0x61626380, 0x000f0000, 0x7da86405, 0x600003c6, 0x3e9d7b78, 0x0183fc00, 0x12dcbfdb, 0xe2e2c38e);
    NextEight(24, 0x00000000, 0x00000000, 0x00000000, 0x00000000, 0x00000000, 0x00000000, 0x00000000, 0x00000018,
              0x61626380, 0x000f0000, 0x7da86405, 0x600003c6, 0x3e9d7b78, 0x0183fc00, 0x12dcbfdb, 0xe2e2c38e,
              0xc8215c1a, 0xb73679a2, 0xe5bc3909, 0x32663c5b, 0x9d209d67, 0xec8726cb, 0x702138a4, 0xd3b7973b);
    NextEight(32, 0x61626380, 0x000f0000, 0x7da86405, 0x600003c6, 0x3e9d7b78, 0x0183fc00, 0x12dcbfdb, 0xe2e2c38e,
              0xc8215c1a, 0xb73679a2, 0xe5bc3909, 0x32663c5b, 0x9d209d67, 0xec8726cb, 0x702138a4, 0xd3b7973b,
              0x93f5997f, 0x3b68ba73, 0xaff4ffc1, 0xf10a5c62, 0x0a8b3996, 0x72af830a, 0x9409e33e, 0x24641522);
    NextEight(40, 0xc8215c1a, 0xb73679a2, 0xe5bc3909, 0x32663c5b, 0x9d209d67, 0xec8726cb, 0x702138a4, 0xd3b7973b,
              0x93f5997f, 0x3b68ba73, 0xaff4ffc1, 0xf10a5c62, 0x0a8b3996, 0x72af830a, 0x9409e33e, 0x24641522,
              0x9f47bf94, 0xf0a64f5a, 0x3e246a79, 0x27333ba3, 0x0c4763f2, 0x840abf27, 0x7a290d5d, 0x065c43da);
    NextEight(48, 0x93f5997f, 0x3b68ba73, 0xaff4ffc1, 0xf10a5c62, 0x0a8b3996, 0x72af830a, 0x9409e33e, 0x24641522,
              0x9f47bf94, 0xf0a64f5a, 0x3e246a79, 0x27333ba3, 0x0c4763f2, 0x840abf27, 0x7a290d5d, 0x065c43da,
              0xfb3e89cb, 0xcc7617db, 0xb9e66c34, 0xa9993667, 0x84badedd, 0xc21462bc, 0x1487472c, 0xb20f7a99);
    NextEight(56, 0x9f47bf94, 0xf0a64f5a, 0x3e246a79, 0x27333ba3, 0x0c4763f2, 0x840abf27, 0x7a290d5d, 0x065c43da,
              0xfb3e89cb, 0xcc7617db, 0xb9e66c34, 0xa9993667, 0x84badedd, 0xc21462bc, 0x1487472c, 0xb20f7a99,
              0xef57b9cd, 0xebe6b238, 0x9fe3095e, 0x78bc8d4b, 0xa43fcf15, 0x668b2ff8, 0xeeaba2cc, 0x12b1edeb);
  }

  lemma Example0()
    requires State(0,
          Regs(0x6a09e667, 0xbb67ae85, 0x3c6ef372, 0xa54ff53a, 0x510e527f, 0x9b05688c, 0x1f83d9ab, 0x5be0cd19))
    requires Words(0, 0x61626380, 0x00000000, 0x00000000, 0x00000000, 0x00000000, 0x00000000, 0x00000000, 0x00000000)
    ensures State(8,
          Regs(0x85a07b5f, 0xe5030380, 0x2b4209f5, 0x04409a6a, 0x0c657a79, 0x9b27a401, 0x714260ad, 0x43ada245))
  {
    hide State, Words;
    EightRounds(0, 0x6a09e667, 0xbb67ae85, 0x3c6ef372, 0xa54ff53a, 0x510e527f, 0x9b05688c, 0x1f83d9ab, 0x5be0cd19,
                0x428a2f98, 0x71374491, 0xb5c0fbcf, 0xe9b5dba5, 0x3956c25b, 0x59f111f1, 0x923f82a4, 0xab1c5ed5,
                0x61626380, 0x00000000, 0x00000000, 0x00000000, 0x00000000, 0x00000000, 0x00000000, 0x00000000,
                0x5d6aebcd, 0x5a6ad9ad, 0xc8c347a7, 0xd550f666, 0x04409a6a, 0x2b4209f5, 0xe5030380, 0x85a07b5f,
                0xfa2a4622, 0x78ce7989, 0xf92939eb, 0x24e00850, 0x43ada245, 0x714260ad, 0x9b27a401, 0x0c657a79);
  }

  lemma Example8()
    requires State(8,
          Regs(0x85a07b5f, 0xe5030380, 0x2b4209f5, 0x04409a6a, 0x0c657a79, 0x9b27a401, 0x714260ad, 0x43ada245))
    requires Words(8, 0x00000000, 0x00000000, 0x00000000, 0x00000000, 0x00000000, 0x00000000, 0x00000000, 0x00000018)
    ensures State(16,
          Regs(0xb0fa238e, 0xc0645fde, 0xd932eb16, 0x87912990, 0x07590dcd, 0x0b92f20c, 0x745a48de, 0x1e578218))
  {
    hide State, Words;
    EightRounds(8, 0x85a07b5f, 0xe5030380, 0x2b4209f5, 0x04409a6a, 0x0c657a79, 0x9b27a401, 0x714260ad, 0x43ada245,
                0xd807aa98, 0x12835b01, 0x243185be, 0x550c7dc3, 0x72be5d74, 0x80deb1fe, 0x9bdc06a7, 0xc19bf174,
                0x00000000, 0x00000000, 0x00000000, 0x00000000, 0x00000000, 0x00000000, 0x00000000, 0x00000018,
                0x8e04ecb9, 0x8c87346b, 0x4798a3f4, 0xf71fc5a9, 0x87912990, 0xd932eb16, 0xc0645fde, 0xb0fa238e,
                0x32ca2d8c, 0x1cc92596, 0x436b23e8, 0x816fd6e9, 0x1e578218, 0x745a48de, 0x0b92f20c, 0x07590dcd);
  }

  lemma Example16()
    requires State(16,
          Regs(0xb0fa238e, 0xc0645fde, 0xd932eb16, 0x87912990, 0x07590dcd, 0x0b92f20c, 0x745a48de, 0x1e578218))
    requires Words(16, 0x61626380, 0x000f0000, 0x7da86405, 0x600003c6, 0x3e9d7b78, 0x0183fc00, 0x12dcbfdb, 0xe2e2c38e)
    ensures State(24,
          Regs(0xc5d53d8d, 0xa7a3623f, 0xc2606d6d, 0x9dc68b63, 0xaa47c347, 0x49f5114a, 0xe1257970, 0x8ada8930))
  {
    hide State, Words;
    EightRounds(16, 0xb0fa238e, 0xc0645fde, 0xd932eb16, 0x87912990, 0x07590dcd, 0x0b92f20c, 0x745a48de, 0x1e578218,
                0xe49b69c1, 0xefbe4786, 0x0fc19dc6, 0x240ca1cc, 0x2de92c6f, 0x4a7484aa, 0x5cb0a9dc, 0x76f988da,
                0x61626380, 0x000f0000, 0x7da86405, 0x600003c6, 0x3e9d7b78, 0x0183fc00, 0x12dcbfdb, 0xe2e2c38e,
                0x21da9a9b, 0xc2fbd9d1, 0xfe777bbf, 0xe1f20c33, 0x9dc68b63, 0xc2606d6d, 0xa7a3623f, 0xc5d53d8d,
                0x8034229c, 0x846ee454, 0xcc899961, 0xb0638179, 0x8ada8930, 0xe1257970, 0x49f5114a, 0xaa47c347);
  }

  lemma Example24()
    requires State(24,
          Regs(0xc5d53d8d, 0xa7a3623f, 0xc2606d6d, 0x9dc68b63, 0xaa47c347, 0x49f5114a, 0xe1257970, 0x8ada8930))
    requires Words(24, 0xc8215c1a, 0xb73679a2, 0xe5bc3909, 0x32663c5b, 0x9d209d67, 0xec8726cb, 0x702138a4, 0xd3b7973b)
    ensures State(32,
          Regs(0x73b33bf5, 0xea992a22, 0xa0060b30, 0x363482c9, 0xba591112, 0x0109ab3a, 0xade79437, 0x6112a3b7))
  {
    hide State, Words;
    EightRounds(24, 0xc5d53d8d, 0xa7a3623f, 0xc2606d6d, 0x9dc68b63, 0xaa47c347, 0x49f5114a, 0xe1257970, 0x8ada8930,
                0x983e5152, 0xa831c66d, 0xb00327c8, 0xbf597fc7, 0xc6e00bf3, 0xd5a79147, 0x06ca6351, 0x14292967,
                0xc8215c1a, 0xb73679a2, 0xe5bc3909, 0x32663c5b, 0x9d209d67, 0xec8726cb, 0x702138a4, 0xd3b7973b,
                0x1c2c2838, 0xcde8037d, 0xb62ec4bc, 0x77d37528, 0x363482c9, 0xa0060b30, 0xea992a22, 0x73b33bf5,
                0x2823ef91, 0x14383d8e, 0xc74c6516, 0xedffbff8, 0x6112a3b7, 0xade79437, 0x0109ab3a, 0xba591112);
  }

  lemma Example32()
    requires State(32,
          Regs(0x73b33bf5, 0xea992a22, 0xa0060b30, 0x363482c9, 0xba591112, 0x0109ab3a, 0xade79437, 0x6112a3b7))
    requires Words(32, 0x93f5997f, 0x3b68ba73, 0xaff4ffc1, 0xf10a5c62, 0x0a8b3996, 0x72af830a, 0x9409e33e, 0x24641522)
    ensures State(40,
          Regs(0x79ea687a, 0x6dc57a8a, 0x34df1604, 0x41a65cb1, 0x1efbc0a0, 0xf0781bc8, 0xa507a53d, 0x0772a26b))
  {
    hide State, Words;
    EightRounds(32, 0x73b33bf5, 0xea992a22, 0xa0060b30, 0x363482c9, 0xba591112, 0x0109ab3a, 0xade79437, 0x6112a3b7,
                0x27b70a85, 0x2e1b2138, 0x4d2c6dfc, 0x53380d13, 0x650a7354, 0x766a0abb, 0x81c2c92e, 0x92722c85,
                0x93f5997f, 0x3b68ba73, 0xaff4ffc1, 0xf10a5c62, 0x0a8b3996, 0x72af830a, 0x9409e33e, 0x24641522,
                0x98e12507, 0xfe604df5, 0xa9a7738c, 0x65a0cfe4, 0x41a65cb1, 0x34df1604, 0x6dc57a8a, 0x79ea687a,
                0x9cd9f5f6, 0x59249dd3, 0x085f3833, 0xf4b002d6, 0x0772a26b, 0xa507a53d, 0xf0781bc8, 0x1efbc0a0);
  }

  lemma Example40()
    requires State(40,
          Regs(0x79ea687a, 0x6dc57a8a, 0x34df1604, 0x41a65cb1, 0x1efbc0a0, 0xf0781bc8, 0xa507a53d, 0x0772a26b))
    requires Words(40, 0x9f47bf94, 0xf0a64f5a, 0x3e246a79, 0x27333ba3, 0x0c4763f2, 0x840abf27, 0x7a290d5d, 0x065c43da)
    ensures State(48,
          Regs(0x4172328d, 0xa14c14b0, 0x72ab4b91, 0x26628815, 0xfecf0bc6, 0xd57b94a9, 0xb7755da1, 0xa80f11f0))
  {
    hide State, Words;
    EightRounds(40, 0x79ea687a, 0x6dc57a8a, 0x34df1604, 0x41a65cb1, 0x1efbc0a0, 0xf0781bc8, 0xa507a53d, 0x0772a26b,
                0xa2bfe8a1, 0xa81a664b, 0xc24b8b70, 0xc76c51a3, 0xd192e819, 0xd6990624, 0xf40e3585, 0x106aa070,
                0x9f47bf94, 0xf0a64f5a, 0x3e246a79, 0x27333ba3, 0x0c4763f2, 0x840abf27, 0x7a290d5d, 0x065c43da,
                0xd6670766, 0xdf46652f, 0x17aa0dfe, 0x9d4baf93, 0x26628815, 0x72ab4b91, 0xa14c14b0, 0x4172328d,
                0x26352d63, 0x838b2711, 0xdecd4715, 0xfda24c2e, 0xa80f11f0, 0xb7755da1, 0xd57b94a9, 0xfecf0bc6);
  }

  lemma Example48()
    requires State(48,
          Regs(0x4172328d, 0xa14c14b0, 0x72ab4b91, 0x26628815, 0xfecf0bc6, 0xd57b94a9, 0xb7755da1, 0xa80f11f0))
    requires Words(48, 0xfb3e89cb, 0xcc7617db, 0xb9e66c34, 0xa9993667, 0x84badedd, 0xc21462bc, 0x1487472c, 0xb20f7a99)
    ensures State(56,
          Regs(0x38cc9913, 0x3ec45cdb, 0xf5702fdb, 0x101fd28f, 0x54cb266b, 0xe50e1b4f, 0x9f4787c3, 0x529e7d00))
  {
    hide State, Words;
    EightRounds(48, 0x4172328d, 0xa14c14b0, 0x72ab4b91, 0x26628815, 0xfecf0bc6, 0xd57b94a9, 0xb7755da1, 0xa80f11f0,
                0x19a4c116, 0x1e376c08, 0x2748774c, 0x34b0bcb5, 0x391c0cb3, 0x4ed8aa4a, 0x5b9cca4f, 0x682e6ff3,
                0xfb3e89cb, 0xcc7617db, 0xb9e66c34, 0xa9993667, 0x84badedd, 0xc21462bc, 0x1487472c, 0xb20f7a99,
                0x05757ceb, 0xf11bfaa8, 0x7a0508a1, 0x886e7a22, 0x101fd28f, 0xf5702fdb, 0x3ec45cdb, 0x38cc9913,
                0xbd714038, 0x6e5c390c, 0x52f1ccf7, 0x49231c1e, 0x529e7d00, 0x9f4787c3, 0xe50e1b4f, 0x54cb266b);
  }

  lemma Example56()
    requires State(56,
          Regs(0x38cc9913, 0x3ec45cdb, 0xf5702fdb, 0x101fd28f, 0x54cb266b, 0xe50e1b4f, 0x9f4787c3, 0x529e7d00))
    requires Words(56, 0xef57b9cd, 0xebe6b238, 0x9fe3095e, 0x78bc8d4b, 0xa43fcf15, 0x668b2ff8, 0xeeaba2cc, 0x12b1edeb)
    ensures State(64,
          Regs(0x506e3058, 0xd39a2165, 0x04d24d6c, 0xb85e2ce9, 0x5ef50f24, 0xfb121210, 0x948d25b6, 0x961f4894))
  {
    hide State, Words;
    EightRounds(56, 0x38cc9913, 0x3ec45cdb, 0xf5702fdb, 0x101fd28f, 0x54cb266b, 0xe50e1b4f, 0x9f4787c3, 0x529e7d00,
                0x748f82ee, 0x78a5636f, 0x84c87814, 0x8cc70208, 0x90befffa, 0xa4506ceb, 0xbef9a3f7, 0xc67178f2,
                0xef57b9cd, 0xebe6b238, 0x9fe3095e, 0x78bc8d4b, 0xa43fcf15, 0x668b2ff8, 0xeeaba2cc, 0x12b1edeb,
                0xfcd1887b, 0xc062d46f, 0xffb70472, 0xb6ae8fff, 0xb85e2ce9, 0x04d24d6c, 0xd39a2165, 0x506e3058,
                0x9b5e906c, 0x7e44008e, 0x6d83bfc6, 0xb21bad3d, 0x961f4894, 0x948d25b6, 0xfb121210, 0x5ef50f24);
  }

  // ------------------------------------------------------------------- what it proves

  lemma SmallLength(bits: nat)
    requires bits < 0x100
    ensures LengthBytes(bits) == [0, 0, 0, 0, 0, 0, 0, ToByte(bits)]
  {
    hide ToByte;
    LastByte();
  }

  lemma LastByte()
    ensures ToByte(24) == 24 && ToByte(0) == 0
  {
  }

  lemma PaddedBytes()
    ensures |Padded(ABC)| == 64 && Padded(ABC)[..4] == [0x61, 0x62, 0x63, 0x80]
    ensures forall i :: 4 <= i < 64 ==> Padded(ABC)[i] == if i == 63 then 24 else 0
  {
    hide LengthBytes, ToByte;
    SmallLength(24);
    LastByte();
  }

  lemma FirstWord()
    ensures BigEndian(0x61, 0x62, 0x63, 0x80) == 0x61626380
    ensures BigEndian(0, 0, 0, 0) == 0 && BigEndian(0, 0, 0, 24) == 24
  {
  }

  lemma PaddedBlock()
    ensures |Padded(ABC)| == 64 && BlockWords(Padded(ABC)) == Block()
  {
    hide Padded, BigEndian;
    PaddedBytes();
    FirstWord();
    var p, block := Padded(ABC), Block();
    assert p[0] == p[..4][0] && p[1] == p[..4][1] && p[2] == p[..4][2] && p[3] == p[..4][3];
    forall i | 0 <= i < 16 ensures BlockWords(p)[i] == block[i] {
    }
  }

  lemma StartState()
    ensures State(0, INITIAL)
  {
  }

  /** A message that pads to one block is digested by one compression. */
  lemma OneBlock(input: seq<Byte>, block: seq<Word>)
    requires |block| == 16 && |Padded(input)| == 64 && BlockWords(Padded(input)) == block
    ensures Digest(input) == AddRegs(INITIAL, Rounds(block, INITIAL, 64))
  {
    hide Rounds, AddRegs, Padded, BlockWords, HashBlocks;
    var p := Padded(input);
    HashStep(INITIAL, p);
    assert p[..64] == p;
    HashEnd(Compress(INITIAL, block), p[64..]);
  }

  lemma FinalState()
    ensures State(64,
          Regs(0x506e3058, 0xd39a2165, 0x04d24d6c, 0xb85e2ce9, 0x5ef50f24, 0xfb121210, 0x948d25b6, 0x961f4894))
  {
    hide *;
    StartState();
    InitialWords();
    ExampleWords();
    Example0();
    Example8();
    Example16();
    Example24();
    Example32();
    Example40();
    Example48();
    Example56();
  }

  lemma InitialWords()
    ensures INITIAL
         == Regs(0x6a09e667, 0xbb67ae85, 0x3c6ef372, 0xa54ff53a, 0x510e527f, 0x9b05688c, 0x1f83d9ab, 0x5be0cd19)
  {
  }

  lemma FinalSum()
    ensures AddRegs(INITIAL,

          Regs(0x506e3058, 0xd39a2165, 0x04d24d6c, 0xb85e2ce9, 0x5ef50f24, 0xfb121210, 0x948d25b6, 0x961f4894))
         == Regs(0xba7816bf, 0x8f01cfea, 0x414140de, 0x5dae2223, 0xb00361a3, 0x96177a9c, 0xb410ff61, 0xf20015ad)
  {
  }

  lemma FinalRounds(t: nat, r: Regs)
    requires t <= 64 && State(t, r)
    ensures Rounds(Block(), INITIAL, t) == r
  {
    hide Rounds, Block;
  }

  /** The digest of "abc" is the published one. */
  lemma AbcDigest()
    ensures Digest(ABC)
         == Regs(0xba7816bf, 0x8f01cfea, 0x414140de, 0x5dae2223, 0xb00361a3, 0x96177a9c, 0xb410ff61, 0xf20015ad)
  {
    hide *;
    PaddedBlock();
    OneBlock(ABC, Block());
    FinalState();
    FinalRounds(64,
          Regs(0x506e3058, 0xd39a2165, 0x04d24d6c, 0xb85e2ce9, 0x5ef50f24, 0xfb121210, 0x948d25b6, 0x961f4894));
    FinalSum();
  }
}
