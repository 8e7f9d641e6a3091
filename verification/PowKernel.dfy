/** The proof-of-work kernel: an optimised SHA-256 of one 41-byte message.

  Registers keep their place while their names rotate, the schedule rolls through
  sixteen words, the first eight rounds are precomputed, and choose, majority and
  the padding are rewritten by hand.  All of it refines the plain SHA-256. */
module PowKernel {
  import opened Sha256

  // --------------------------------------------------------- the rewritten functions

  function KernelChoose(x: Word, y: Word, z: Word): Word { z ^ (x & (y ^ z)) }

  function KernelMajority(x: Word, y: Word, z: Word): Word { (x & y) | (z & (x | y)) }

  lemma ChooseBits(x: Word, y: Word, z: Word)
    ensures z ^ (x & (y ^ z)) == (x & y) ^ (!x & z)
  {
  }

  lemma MajorityBits(x: Word, y: Word, z: Word)
    ensures (x & y) | (z & (x | y)) == (x & y) ^ (x & z) ^ (y & z)
  {
  }

  // ------------------------------------------------------------------- its own tables

  /** The device's table of round constants, eight to a row. */
  function KernelRow(r: nat): (row: seq<Word>)
    requires r < 8
    ensures |row| == 8
  {
    if r == 0 then
      [0x428a2f98, 0x71374491, 0xb5c0fbcf, 0xe9b5dba5, 0x3956c25b, 0x59f111f1, 0x923f82a4, 0xab1c5ed5]
    else if r == 1 then
      [0xd807aa98, 0x12835b01, 0x243185be, 0x550c7dc3, 0x72be5d74, 0x80deb1fe, 0x9bdc06a7, 0xc19bf174]
    else if r == 2 then
      [0xe49b69c1, 0xefbe4786, 0x0fc19dc6, 0x240ca1cc, 0x2de92c6f, 0x4a7484aa, 0x5cb0a9dc, 0x76f988da]
    else if r == 3 then
      [0x983e5152, 0xa831c66d, 0xb00327c8, 0xbf597fc7, 0xc6e00bf3, 0xd5a79147, 0x06ca6351, 0x14292967]
    else if r == 4 then
      [0x27b70a85, 0x2e1b2138, 0x4d2c6dfc, 0x53380d13, 0x650a7354, 0x766a0abb, 0x81c2c92e, 0x92722c85]
    else if r == 5 then
      [0xa2bfe8a1, 0xa81a664b, 0xc24b8b70, 0xc76c51a3, 0xd192e819, 0xd6990624, 0xf40e3585, 0x106aa070]
    else if r == 6 then
      [0x19a4c116, 0x1e376c08, 0x2748774c, 0x34b0bcb5, 0x391c0cb3, 0x4ed8aa4a, 0x5b9cca4f, 0x682e6ff3]
    else
      [0x748f82ee, 0x78a5636f, 0x84c87814, 0x8cc70208, 0x90befffa, 0xa4506ceb, 0xbef9a3f7, 0xc67178f2]
  }

  function KernelConstant(t: nat): Word
    requires t < 64
  {
    KernelRow(t / 8)[t % 8]
  }

  /** The device table is the standard one. */
  lemma KernelTable(t: nat)
    requires t < 64
    ensures KernelConstant(t) == RoundConstant(t)
  {
    assert KernelRow(t / 8) == ConstantRow(t / 8);
  }

  /** The host's own copy of the first eight constants. */
  const FIRST_EIGHT: seq<Word> := [0x428a2f98, 0x71374491, 0xb5c0fbcf, 0xe9b5dba5,
                                   0x3956c25b, 0x59f111f1, 0x923f82a4, 0xab1c5ed5]

  lemma FirstEightTable(t: nat)
    requires t < 8
    ensures FIRST_EIGHT[t] == RoundConstant(t)
  {
    assert FIRST_EIGHT == ConstantRow(0);
  }

  // ---------------------------------------------------------------------------- rounds

  /** SHA_ROUND: only the D and H registers are written. */
  method ShaRound(A: Word, B: Word, C: Word, D: Word, E: Word, F: Word, G: Word, H: Word, i: nat, w: Word)
    returns (d: Word, h: Word)
    requires i < 64
    ensures d == AddW(D, Temp1(E, F, G, H, RoundConstant(i), w))
    ensures h == AddW(Temp1(E, F, G, H, RoundConstant(i), w), Temp2(A, B, C))
  {
    ChooseBits(E, F, G);
    MajorityBits(A, B, C);
    hide AddW, BigSigma0, BigSigma1, RoundConstant, KernelConstant;
    KernelTable(i);
    var t1 := AddW(AddW(AddW(AddW(H, BigSigma1(E)), KernelChoose(E, F, G)), KernelConstant(i)), w);
    var t2 := AddW(BigSigma0(A), KernelMajority(A, B, C));
    d := AddW(D, t1);
    h := AddW(t1, t2);
  }

  /** EXPAND: one rolling schedule word. */
  function Expand(w0: Word, w1: Word, w9: Word, w14: Word): Word
  {
    w0 + (SmallSigma0(w1) + w9 + SmallSigma1(w14))
  }

  lemma ExpandIsNext(w0: Word, w1: Word, w9: Word, w14: Word)
    ensures Expand(w0, w1, w9, w14) == NextWord(w0, w1, w9, w14)
  {
    hide SmallSigma0, SmallSigma1;
  }

  lemma ScheduleStep(block: seq<Word>, t: nat)
    requires |block| == 16 && t >= 16
    ensures Schedule(block, t) == Expand(Schedule(block, t - 16), Schedule(block, t - 15),
                                         Schedule(block, t - 7), Schedule(block, t - 2))
  {
    hide Expand, NextWord;
    ExpandIsNext(Schedule(block, t - 16), Schedule(block, t - 15), Schedule(block, t - 7), Schedule(block, t - 2));
  }

  /** One macro round on registers that hold the plain state after t rounds: the two written
      registers complete the state after t + 1. */
  method PlainRound(A: Word, B: Word, C: Word, D: Word, E: Word, F: Word, G: Word, H: Word, t: nat, w: Word,
      ghost block: seq<Word>, ghost start: Regs)
    returns (d: Word, h: Word)
    requires |block| == 16 && t < 64
    requires Regs(A, B, C, D, E, F, G, H) == Rounds(block, start, t) && w == Schedule(block, t)
    ensures Regs(h, A, B, C, d, E, F, G) == Rounds(block, start, t + 1)
  {
    hide AddW, Temp1, Temp2, RoundConstant, Schedule, Rounds;
    RoundsStep(block, start, t);
    d, h := ShaRound(A, B, C, D, E, F, G, H, t, w);
  }

  /** EXPAND followed by SHA_ROUND: the next schedule word and the round that uses it. */
  method ExpandRound(A: Word, B: Word, C: Word, D: Word, E: Word, F: Word, G: Word, H: Word,
      w0: Word, w1: Word, w9: Word, w14: Word, t: nat, ghost block: seq<Word>, ghost start: Regs)
    returns (d: Word, h: Word, w: Word)
    requires |block| == 16 && 16 <= t < 64
    requires Regs(A, B, C, D, E, F, G, H) == Rounds(block, start, t)
    requires w0 == Schedule(block, t - 16) && w1 == Schedule(block, t - 15)
    requires w9 == Schedule(block, t - 7) && w14 == Schedule(block, t - 2)
    ensures Regs(h, A, B, C, d, E, F, G) == Rounds(block, start, t + 1)
    ensures w == Schedule(block, t)
  {
    hide Schedule, Rounds, Expand;
    ScheduleStep(block, t);
    w := Expand(w0, w1, w9, w14);
    d, h := PlainRound(A, B, C, D, E, F, G, H, t, w, block, start);
  }

  /** Eight expansions and rounds, half of EXPAND_AND_COMPRESS_16.  The
      register names are back in place afterwards; the window has moved by eight. */
  method ExpandAndCompress8(a0: Word, b0: Word, c0: Word, d0: Word, e0: Word, f0: Word, g0: Word, h0: Word,
      v0: Word, v1: Word, v2: Word, v3: Word, v4: Word, v5: Word, v6: Word, v7: Word,
      v8: Word, v9: Word, v10: Word, v11: Word, v12: Word, v13: Word, v14: Word, v15: Word,
      base: nat, ghost block: seq<Word>, ghost start: Regs)
    returns (a: Word, b: Word, c: Word, d: Word, e: Word, f: Word, g: Word, h: Word,
             w0: Word, w1: Word, w2: Word, w3: Word, w4: Word, w5: Word, w6: Word, w7: Word)
    requires |block| == 16 && 16 <= base <= 56
    requires Regs(a0, b0, c0, d0, e0, f0, g0, h0) == Rounds(block, start, base)
    requires v0 == Schedule(block, base - 16)
    requires v1 == Schedule(block, base - 15)
    requires v2 == Schedule(block, base - 14)
    requires v3 == Schedule(block, base - 13)
    requires v4 == Schedule(block, base - 12)
    requires v5 == Schedule(block, base - 11)
    requires v6 == Schedule(block, base - 10)
    requires v7 == Schedule(block, base - 9)
    requires v8 == Schedule(block, base - 8)
    requires v9 == Schedule(block, base - 7)
    requires v10 == Schedule(block, base - 6)
    requires v11 == Schedule(block, base - 5)
    requires v12 == Schedule(block, base - 4)
    requires v13 == Schedule(block, base - 3)
    requires v14 == Schedule(block, base - 2)
    requires v15 == Schedule(block, base - 1)
    ensures Regs(a, b, c, d, e, f, g, h) == Rounds(block, start, base + 8)
    ensures w0 == Schedule(block, base)
    ensures w1 == Schedule(block, base + 1)
    ensures w2 == Schedule(block, base + 2)
    ensures w3 == Schedule(block, base + 3)
    ensures w4 == Schedule(block, base + 4)
    ensures w5 == Schedule(block, base + 5)
    ensures w6 == Schedule(block, base + 6)
    ensures w7 == Schedule(block, base + 7)
  {
    hide Schedule, Rounds;
    a, b, c, d, e, f, g, h := a0, b0, c0, d0, e0, f0, g0, h0;
    w0, w1, w2, w3, w4, w5, w6, w7 := v0, v1, v2, v3, v4, v5, v6, v7;
    d, h, w0 := ExpandRound(a, b, c, d, e, f, g, h, w0, w1, v9, v14, base, block, start);
    c, g, w1 := ExpandRound(h, a, b, c, d, e, f, g, w1, w2, v10, v15, base + 1, block, start);
    b, f, w2 := ExpandRound(g, h, a, b, c, d, e, f, w2, w3, v11, w0, base + 2, block, start);
    a, e, w3 := ExpandRound(f, g, h, a, b, c, d, e, w3, w4, v12, w1, base + 3, block, start);
    h, d, w4 := ExpandRound(e, f, g, h, a, b, c, d, w4, w5, v13, w2, base + 4, block, start);
    g, c, w5 := ExpandRound(d, e, f, g, h, a, b, c, w5, w6, v14, w3, base + 5, block, start);
    f, b, w6 := ExpandRound(c, d, e, f, g, h, a, b, w6, w7, v15, w4, base + 6, block, start);
    e, a, w7 := ExpandRound(b, c, d, e, f, g, h, a, w7, v8, w0, w5, base + 7, block, start);
  }

  /** EXPAND_AND_COMPRESS_16. */
  method ExpandAndCompress16(a0: Word, b0: Word, c0: Word, d0: Word, e0: Word, f0: Word, g0: Word, h0: Word,
      v0: Word, v1: Word, v2: Word, v3: Word, v4: Word, v5: Word, v6: Word, v7: Word,
      v8: Word, v9: Word, v10: Word, v11: Word, v12: Word, v13: Word, v14: Word, v15: Word,
      base: nat, ghost block: seq<Word>, ghost start: Regs)
    returns (a: Word, b: Word, c: Word, d: Word, e: Word, f: Word, g: Word, h: Word,
             w0: Word, w1: Word, w2: Word, w3: Word, w4: Word, w5: Word, w6: Word, w7: Word,
             w8: Word, w9: Word, w10: Word, w11: Word, w12: Word, w13: Word, w14: Word, w15: Word)
    requires |block| == 16 && 16 <= base <= 48
    requires Regs(a0, b0, c0, d0, e0, f0, g0, h0) == Rounds(block, start, base)
    requires v0 == Schedule(block, base - 16)
    requires v1 == Schedule(block, base - 15)
    requires v2 == Schedule(block, base - 14)
    requires v3 == Schedule(block, base - 13)
    requires v4 == Schedule(block, base - 12)
    requires v5 == Schedule(block, base - 11)
    requires v6 == Schedule(block, base - 10)
    requires v7 == Schedule(block, base - 9)
    requires v8 == Schedule(block, base - 8)
    requires v9 == Schedule(block, base - 7)
    requires v10 == Schedule(block, base - 6)
    requires v11 == Schedule(block, base - 5)
    requires v12 == Schedule(block, base - 4)
    requires v13 == Schedule(block, base - 3)
    requires v14 == Schedule(block, base - 2)
    requires v15 == Schedule(block, base - 1)
    ensures Regs(a, b, c, d, e, f, g, h) == Rounds(block, start, base + 16)
    ensures w0 == Schedule(block, base)
    ensures w1 == Schedule(block, base + 1)
    ensures w2 == Schedule(block, base + 2)
    ensures w3 == Schedule(block, base + 3)
    ensures w4 == Schedule(block, base + 4)
    ensures w5 == Schedule(block, base + 5)
    ensures w6 == Schedule(block, base + 6)
    ensures w7 == Schedule(block, base + 7)
    ensures w8 == Schedule(block, base + 8)
    ensures w9 == Schedule(block, base + 9)
    ensures w10 == Schedule(block, base + 10)
    ensures w11 == Schedule(block, base + 11)
    ensures w12 == Schedule(block, base + 12)
    ensures w13 == Schedule(block, base + 13)
    ensures w14 == Schedule(block, base + 14)
    ensures w15 == Schedule(block, base + 15)
  {
    hide AddW, Temp1, Temp2, RoundConstant, Schedule, Rounds;
    a, b, c, d, e, f, g, h, w0, w1, w2, w3, w4, w5, w6, w7 := ExpandAndCompress8(a0, b0, c0, d0, e0, f0, g0, h0,
      v0, v1, v2, v3, v4, v5, v6, v7, v8, v9, v10, v11, v12, v13, v14, v15, base, block, start);
    a, b, c, d, e, f, g, h, w8, w9, w10, w11, w12, w13, w14, w15 := ExpandAndCompress8(a, b, c, d, e, f, g, h,
      v8, v9, v10, v11, v12, v13, v14, v15, w0, w1, w2, w3, w4, w5, w6, w7, base + 8, block, start);
  }

  // ----------------------------------------------------------------- the message block

  /** The hand-packed words of `state || 0x03 || nonce`, with its padding. */
  function KernelBlock(words: seq<Word>, lo: Word, hi: Word): (block: seq<Word>)
    requires |words| == 8
    ensures |block| == 16
  {
    words + [PackedWord8(lo), PackedWord9(lo, hi), PackedWord10(hi), 0, 0, 0, 0, 328]
  }

  function PackedWord8(lo: Word): Word
  {
    0x03000000 | ((lo & 0xff) << 16) | (((lo >> 8) & 0xff) << 8) | ((lo >> 16) & 0xff)
  }

  function PackedWord9(lo: Word, hi: Word): Word
  {
    ((lo >> 24) << 24) | ((hi & 0xff) << 16) | (((hi >> 8) & 0xff) << 8) | ((hi >> 16) & 0xff)
  }

  function PackedWord10(hi: Word): Word { ((hi >> 24) << 24) | 0x00800000 }

  /** The first eight rounds, which read only the transcript state. */
  function PrefixRounds(words: seq<Word>, t: nat): Regs
    requires |words| == 8 && t <= 8
  {
    if t == 0 then INITIAL else Round(PrefixRounds(words, t - 1), RoundConstant(t - 1), words[t - 1])
  }

  lemma {:induction false} PrefixIsRounds(words: seq<Word>, block: seq<Word>, t: nat)
    requires |words| == 8 && |block| == 16 && block[..8] == words && t <= 8
    ensures Rounds(block, INITIAL, t) == PrefixRounds(words, t)
  {
    hide AddW, Temp1, Temp2, RoundConstant, Round;
    if t > 0 {
      PrefixIsRounds(words, block, t - 1);
      assert block[t - 1] == block[..8][t - 1];
    }
  }

  /** `sha256PrestateAfterEightRounds`, in its plain form. */
  method PrestateAfterEightRounds(words: seq<Word>) returns (r: Regs)
    requires |words| == 8
    ensures r == PrefixRounds(words, 8)
  {
    hide AddW, Temp1, Temp2, RoundConstant;
    var a, b, c, d := INITIAL.a, INITIAL.b, INITIAL.c, INITIAL.d;
    var e, f, g, h := INITIAL.e, INITIAL.f, INITIAL.g, INITIAL.h;
    for i := 0 to 8
      invariant Regs(a, b, c, d, e, f, g, h) == PrefixRounds(words, i)
    {
      FirstEightTable(i);
      var temp1 := Temp1(e, f, g, h, FIRST_EIGHT[i], words[i]);
      var temp2 := Temp2(a, b, c);
      h := g;
      g := f;
      f := e;
      e := AddW(d, temp1);
      d := c;
      c := b;
      b := a;
      a := AddW(temp1, temp2);
    }
    r := Regs(a, b, c, d, e, f, g, h);
  }

  /** Rounds 8 to 15 of one trial, on the precomputed state. */
  method NonceRounds(prestate: Regs,
      w8: Word, w9: Word, w10: Word, w11: Word, w12: Word, w13: Word, w14: Word, w15: Word,
      ghost block: seq<Word>)
    returns (a: Word, b: Word, c: Word, d: Word, e: Word, f: Word, g: Word, h: Word)
    requires |block| == 16 && prestate == Rounds(block, INITIAL, 8)
    requires w8 == Schedule(block, 8) && w9 == Schedule(block, 9)
    requires w10 == Schedule(block, 10) && w11 == Schedule(block, 11)
    requires w12 == Schedule(block, 12) && w13 == Schedule(block, 13)
    requires w14 == Schedule(block, 14) && w15 == Schedule(block, 15)
    ensures Regs(a, b, c, d, e, f, g, h) == Rounds(block, INITIAL, 16)
  {
    hide Schedule, Rounds;
    a, b, c, d := prestate.a, prestate.b, prestate.c, prestate.d;
    e, f, g, h := prestate.e, prestate.f, prestate.g, prestate.h;
    d, h := PlainRound(a, b, c, d, e, f, g, h, 8, w8, block, INITIAL);
    c, g := PlainRound(h, a, b, c, d, e, f, g, 9, w9, block, INITIAL);
    b, f := PlainRound(g, h, a, b, c, d, e, f, 10, w10, block, INITIAL);
    a, e := PlainRound(f, g, h, a, b, c, d, e, 11, w11, block, INITIAL);
    h, d := PlainRound(e, f, g, h, a, b, c, d, 12, w12, block, INITIAL);
    g, c := PlainRound(d, e, f, g, h, a, b, c, 13, w13, block, INITIAL);
    f, b := PlainRound(c, d, e, f, g, h, a, b, 14, w14, block, INITIAL);
    e, a := PlainRound(b, c, d, e, f, g, h, a, 15, w15, block, INITIAL);
  }

  /** One trial of `mine_pow`: the first two digest words for one nonce. */
  method KernelHead(state: seq<Word>, prestate: Regs, nonceLo: Word, nonceHi: Word) returns (h0: Word, h1: Word)
    requires |state| == 8 && prestate == PrefixRounds(state, 8)
    ensures var digest := Compress(INITIAL, KernelBlock(state, nonceLo, nonceHi));
      h0 == digest.a && h1 == digest.b
  {
    hide AddW, RoundConstant, Rounds, PrefixRounds, Schedule, KernelBlock, Compress;
    ghost var block := KernelBlock(state, nonceLo, nonceHi);
    var w0, w1, w2, w3 := state[0], state[1], state[2], state[3];
    var w4, w5, w6, w7 := state[4], state[5], state[6], state[7];
    var w8, w9, w10 := PackedWord8(nonceLo), PackedWord9(nonceLo, nonceHi), PackedWord10(nonceHi);
    var w11: Word, w12: Word, w13: Word, w14: Word, w15: Word := 0, 0, 0, 0, 328;
    KernelWords(state, nonceLo, nonceHi);
    var a, b, c, d, e, f, g, h := NonceRounds(prestate, w8, w9, w10, w11, w12, w13, w14, w15, block);
    a, b, c, d, e, f, g, h,
      w0, w1, w2, w3, w4, w5, w6, w7, w8, w9, w10, w11, w12, w13, w14, w15
      := ExpandAndCompress16(a, b, c, d, e, f, g, h,
           w0, w1, w2, w3, w4, w5, w6, w7, w8, w9, w10, w11, w12, w13, w14, w15, 16, block, INITIAL);
    a, b, c, d, e, f, g, h,
      w0, w1, w2, w3, w4, w5, w6, w7, w8, w9, w10, w11, w12, w13, w14, w15
      := ExpandAndCompress16(a, b, c, d, e, f, g, h,
           w0, w1, w2, w3, w4, w5, w6, w7, w8, w9, w10, w11, w12, w13, w14, w15, 32, block, INITIAL);
    a, b, c, d, e, f, g, h,
      w0, w1, w2, w3, w4, w5, w6, w7, w8, w9, w10, w11, w12, w13, w14, w15
      := ExpandAndCompress16(a, b, c, d, e, f, g, h,
           w0, w1, w2, w3, w4, w5, w6, w7, w8, w9, w10, w11, w12, w13, w14, w15, 48, block, INITIAL);
    h0 := AddW(a, 0x6a09e667);
    h1 := AddW(b, 0xbb67ae85);
    FirstWords(block);
  }

  /** The sixteen block words are the first sixteen schedule words, and the prestate holds the
      first eight rounds on them. */
  lemma KernelWords(state: seq<Word>, lo: Word, hi: Word)
    requires |state| == 8
    ensures var block := KernelBlock(state, lo, hi);
      && Rounds(block, INITIAL, 8) == PrefixRounds(state, 8)
      && (forall t :: 0 <= t < 8 ==> Schedule(block, t) == state[t])
      && Schedule(block, 8) == PackedWord8(lo) && Schedule(block, 9) == PackedWord9(lo, hi)
      && Schedule(block, 10) == PackedWord10(hi) && Schedule(block, 11) == 0 && Schedule(block, 12) == 0
      && Schedule(block, 13) == 0 && Schedule(block, 14) == 0 && Schedule(block, 15) == 328
  {
    hide Rounds, PrefixRounds, Schedule, PackedWord8, PackedWord9, PackedWord10;
    var block := KernelBlock(state, lo, hi);
    assert block[..8] == state;
    PrefixIsRounds(state, block, 8);
    ScheduleStart(block);
  }

  /** The feed-forward of the first two words. */
  lemma FirstWords(block: seq<Word>)
    requires |block| == 16
    ensures var r, digest := Rounds(block, INITIAL, 64), Compress(INITIAL, block);
      AddW(r.a, 0x6a09e667) == digest.a && AddW(r.b, 0xbb67ae85) == digest.b
  {
    hide AddW, Rounds;
    var r := Rounds(block, INITIAL, 64);
    AddComm(r.a, 0x6a09e667);
    AddComm(r.b, 0xbb67ae85);
  }

  lemma AddComm(x: Word, y: Word)
    ensures AddW(x, y) == AddW(y, x)
  {
  }

  // ------------------------------------------- the block is the padded 41-byte message

  function LittleEndian(lo: Word, hi: Word): (r: seq<Byte>)
    ensures |r| == 8
  {
    [ByteOf(lo, 0), ByteOf(lo, 8), ByteOf(lo, 16), ByteOf(lo, 24),
     ByteOf(hi, 0), ByteOf(hi, 8), ByteOf(hi, 16), ByteOf(hi, 24)]
  }

  function Message(state: seq<Byte>, lo: Word, hi: Word): (m: seq<Byte>)
    requires |state| == 32
    ensures |m| == 41
  {
    state + [0x03] + LittleEndian(lo, hi)
  }

  /** The message: the transcript state, the byte 3, and the nonce least significant byte first. */
  lemma MessageLayout(state: seq<Byte>, lo: Word, hi: Word)
    requires |state| == 32
    ensures var m := Message(state, lo, hi);
      && m[..32] == state && m[32] == 0x03
      && BigEndian(m[36], m[35], m[34], m[33]) == lo && BigEndian(m[40], m[39], m[38], m[37]) == hi
  {
    hide BigEndian, ByteOf;
    WordReadBack(lo);
    WordReadBack(hi);
  }

  function StateWords(state: seq<Byte>): (words: seq<Word>)
    requires |state| == 32
    ensures |words| == 8
  {
    seq(8, i requires 0 <= i < 8 =>
      BigEndian(state[4 * i], state[4 * i + 1], state[4 * i + 2], state[4 * i + 3]))
  }

  lemma PackBits(lo: Word, hi: Word)
    ensures BigEndian(0x03, ByteOf(lo, 0), ByteOf(lo, 8), ByteOf(lo, 16)) == PackedWord8(lo)
    ensures BigEndian(ByteOf(lo, 24), ByteOf(hi, 0), ByteOf(hi, 8), ByteOf(hi, 16)) == PackedWord9(lo, hi)
    ensures BigEndian(ByteOf(hi, 24), 0x80, 0, 0) == PackedWord10(hi)
    ensures BigEndian(0, 0, 0, 0) == 0
    ensures BigEndian(0, 0, 0x01, 0x48) == 328
  {
  }

  lemma LengthOf41()
    ensures PadZeros(41) == 14 && LengthBytes(328) == [0, 0, 0, 0, 0, 0, 0x01, 0x48]
  {
    hide ToByte;
    ByteValues();
  }

  lemma ByteValues()
    ensures ToByte(0) == 0 && ToByte(1) == 0x01 && ToByte(328) == 0x48
  {
  }

  /** Byte j of everything after the transcript state, once padded. */
  function TailByte(lo: Word, hi: Word, j: nat): Byte
  {
    if j == 0 then 0x03
    else if j <= 8 then LittleEndian(lo, hi)[j - 1]
    else if j == 9 then 0x80
    else if j == 30 then 0x01
    else if j == 31 then 0x48
    else 0
  }

  function Tail(lo: Word, hi: Word): (t: seq<Byte>)
    ensures |t| == 32
  {
    seq(32, j requires 0 <= j < 32 => TailByte(lo, hi, j))
  }

  lemma MessageBytes(state: seq<Byte>, lo: Word, hi: Word)
    requires |state| == 32
    ensures Padded(Message(state, lo, hi)) == state + Tail(lo, hi)
  {
    hide LengthBytes, PadZeros, LittleEndian;
    LengthOf41();
    var p := Padded(Message(state, lo, hi));
    assert |p| == 64;
    forall j | 0 <= j < 32 ensures p[32 + j] == TailByte(lo, hi, j) {}
  }

  function TailWord(lo: Word, hi: Word, i: nat): Word
  {
    BigEndian(TailByte(lo, hi, 4 * i), TailByte(lo, hi, 4 * i + 1),
              TailByte(lo, hi, 4 * i + 2), TailByte(lo, hi, 4 * i + 3))
  }

  lemma NonceWords(lo: Word, hi: Word)
    ensures TailWord(lo, hi, 0) == PackedWord8(lo)
    ensures TailWord(lo, hi, 1) == PackedWord9(lo, hi)
    ensures TailWord(lo, hi, 2) == PackedWord10(hi)
  {
    hide BigEndian, ByteOf, PackedWord8, PackedWord9, PackedWord10;
    PackBits(lo, hi);
  }

  lemma PaddingWords(lo: Word, hi: Word, i: nat)
    requires 3 <= i < 8
    ensures TailWord(lo, hi, i) == if i < 7 then 0 else 328
  {
    hide BigEndian, LittleEndian, PackedWord8, PackedWord9, PackedWord10;
    PackBits(lo, hi);
  }

  lemma TailWordAt(lo: Word, hi: Word, i: nat, words: seq<Word>)
    requires |words| == 8 && i < 8
    ensures TailWord(lo, hi, i) == KernelBlock(words, lo, hi)[8 + i]
  {
    hide PackedWord8, PackedWord9, PackedWord10, TailWord;
    if i >= 3 { PaddingWords(lo, hi, i); } else { NonceWords(lo, hi); }
  }

  lemma MessageWordAt(state: seq<Byte>, lo: Word, hi: Word, i: nat)
    requires |state| == 32 && i < 16
    ensures var p := state + Tail(lo, hi);
      BigEndian(p[4 * i], p[4 * i + 1], p[4 * i + 2], p[4 * i + 3]) == KernelBlock(StateWords(state), lo, hi)[i]
  {
    hide BigEndian, PackedWord8, PackedWord9, PackedWord10, TailByte;
    if i >= 8 { TailWordAt(lo, hi, i - 8, StateWords(state)); }
  }

  /** The hand-packed block is exactly the padded message. */
  lemma BlockIsMessage(state: seq<Byte>, lo: Word, hi: Word)
    requires |state| == 32
    ensures |Padded(Message(state, lo, hi))| == 64
    ensures BlockWords(Padded(Message(state, lo, hi))) == KernelBlock(StateWords(state), lo, hi)
  {
    hide BigEndian, KernelBlock, StateWords, Padded, Message, Tail;
    MessageBytes(state, lo, hi);
    var p := state + Tail(lo, hi);
    var block := KernelBlock(StateWords(state), lo, hi);
    forall i | 0 <= i < 16 ensures BlockWords(p)[i] == block[i] { MessageWordAt(state, lo, hi, i); }
  }

  lemma DigestOfMessage(state: seq<Byte>, lo: Word, hi: Word)
    requires |state| == 32
    ensures Digest(Message(state, lo, hi)) == Compress(INITIAL, KernelBlock(StateWords(state), lo, hi))
  {
    hide Compress, BlockWords, Padded, KernelBlock, Message;
    BlockIsMessage(state, lo, hi);
    var p := Padded(Message(state, lo, hi));
    HashStep(INITIAL, p);
    assert p[..64] == p;
    HashEnd(Compress(INITIAL, BlockWords(p)), p[64..]);
  }

  /** Host and device together: for every state and nonce, the two words the kernel
      compares are the first two words of the plain SHA-256 digest. */
  method KernelRefinesSha256(state: seq<Byte>, lo: Word, hi: Word) returns (h0: Word, h1: Word)
    requires |state| == 32
    ensures h0 == Digest(Message(state, lo, hi)).a
    ensures h1 == Digest(Message(state, lo, hi)).b
  {
    hide Compress, KernelBlock, PrefixRounds, Digest, Message, StateWords;
    var words := StateWords(state);
    var prestate := PrestateAfterEightRounds(words);
    h0, h1 := KernelHead(words, prestate, lo, hi);
    DigestOfMessage(state, lo, hi);
  }

  // --------------------------------------------------------------- difficulty predicates

  /** `valid_head`, on the kernel's two words. */
  predicate ValidHead(h0: Word, h1: Word, bits: Word)
    requires bits <= 63
  {
    if bits == 0 then true
    else if bits <= 32 then h0 >> (32 - bits) == 0
    else h0 == 0 && h1 >> (64 - bits) == 0
  }

  /** Bit i of the two head words, most significant first. */
  predicate HeadBit(h0: Word, h1: Word, i: Word)
    requires i < 64
  {
    if i < 32 then (h0 >> (31 - i)) & 1 == 1 else (h1 >> (63 - i)) & 1 == 1
  }

  /** Each further bit of difficulty asks for one more leading zero bit. */
  lemma DifficultyStep(h0: Word, h1: Word, bits: Word)
    requires bits < 63
    ensures ValidHead(h0, h1, bits + 1) <==> ValidHead(h0, h1, bits) && !HeadBit(h0, h1, bits)
  {
  }

  /** The head test at difficulty bits: the first bits bits are zero. */
  lemma {:induction false} LeadingZeros(h0: Word, h1: Word, bits: Word)
    requires bits <= 63
    ensures ValidHead(h0, h1, bits) <==> forall i: Word :: i < bits ==> !HeadBit(h0, h1, i)
    decreases bits
  {
    hide HeadBit;
    if bits > 0 {
      hide ValidHead;
      LeadingZeros(h0, h1, bits - 1);
      DifficultyStep(h0, h1, bits - 1);
      assert forall i: Word {:trigger HeadBit(h0, h1, i)} :: i < bits ==> i < bits - 1 || i == bits - 1;
    }
  }

  /** Folding eight digest bytes into a big-endian 64-bit head. */
  function HeadOf(bytes: seq<Byte>): bv64
  {
    if bytes == [] then 0
    else (HeadOf(bytes[..|bytes| - 1]) << 8) | (bytes[|bytes| - 1] as bv64)
  }

  /** `validDigest`, on the CryptoKit digest bytes. */
  predicate ValidDigest(state: seq<Byte>, lo: Word, hi: Word, bits: Word)
    requires |state| == 32 && bits <= 63
  {
    hide Digest;
    bits == 0 || HeadOf(DigestBytes(Digest(Message(state, lo, hi)))[..8]) < (1 as bv64) << (64 - bits)
  }

  lemma HeadBits(h0: Word, h1: Word, bits: Word)
    requires bits <= 63
    ensures ValidHead(h0, h1, bits)
        <==> bits == 0 || ((h0 as bv64) << 32) | (h1 as bv64) < (1 as bv64) << (64 - bits)
  {
  }

  lemma HeadOfWords(h0: Word, h1: Word)
    ensures HeadOf(WordBytes(h0) + WordBytes(h1)) == ((h0 as bv64) << 32) | (h1 as bv64)
  {
    hide HeadOf, ByteOf;
    var b := WordBytes(h0) + WordBytes(h1);
    HeadOfEight(b);
    FoldBits(h0, h1);
  }

  function Fold8(a: Byte, b: Byte, c: Byte, d: Byte, e: Byte, f: Byte, g: Byte, h: Byte): bv64
  {
    ((((((((((((((a as bv64) << 8) | (b as bv64)) << 8) | (c as bv64)) << 8) | (d as bv64)) << 8)
      | (e as bv64)) << 8) | (f as bv64)) << 8) | (g as bv64)) << 8) | (h as bv64)
  }

  lemma HeadOfNext(b: seq<Byte>, k: nat)
    requires k < |b|
    ensures HeadOf(b[..k + 1]) == (HeadOf(b[..k]) << 8) | (b[k] as bv64)
  {
    assert b[..k + 1][..k] == b[..k];
  }

  lemma FirstByte(x: Byte)
    ensures (HeadOf([]) << 8) | (x as bv64) == x as bv64
  {
  }

  lemma HeadOfEight(b: seq<Byte>)
    requires |b| == 8
    ensures HeadOf(b) == Fold8(b[0], b[1], b[2], b[3], b[4], b[5], b[6], b[7])
  {
    hide HeadOf;
    assert b[..0] == [] && b[..8] == b;
    FirstByte(b[0]);
    HeadOfNext(b, 0);
    HeadOfNext(b, 1);
    HeadOfNext(b, 2);
    HeadOfNext(b, 3);
    HeadOfNext(b, 4);
    HeadOfNext(b, 5);
    HeadOfNext(b, 6);
    HeadOfNext(b, 7);
  }

  lemma FoldBits(h0: Word, h1: Word)
    ensures Fold8(ByteOf(h0, 24), ByteOf(h0, 16), ByteOf(h0, 8), ByteOf(h0, 0),
                  ByteOf(h1, 24), ByteOf(h1, 16), ByteOf(h1, 8), ByteOf(h1, 0))
         == ((h0 as bv64) << 32) | (h1 as bv64)
  {
  }

  /** The kernel accepts a nonce exactly when the independent host check does. */
  method KernelAccepts(state: seq<Byte>, lo: Word, hi: Word, bits: Word) returns (ok: bool)
    requires |state| == 32 && bits <= 63
    ensures ok == ValidDigest(state, lo, hi, bits)
  {
    hide Digest, ValidHead, HeadOf;
    var h0, h1 := KernelRefinesSha256(state, lo, hi);
    ok := ValidHead(h0, h1, bits);
    HeadBits(h0, h1, bits);
    HeadOfWords(h0, h1);
    assert DigestBytes(Digest(Message(state, lo, hi)))[..8] == WordBytes(h0) + WordBytes(h1);
  }
}
