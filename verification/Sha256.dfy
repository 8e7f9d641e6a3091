/** Plain SHA-256 (sections 4.1.2, 4.2.2, 5.1.1, 5.3.3 and 6.2.2 of FIPS 180-4), as
    the dependency-free digest tool computes it. */
module Sha256 {
  type Word = bv32
  type Byte = bv8

  /** The sixty-four round constants, eight to a row. */
  function ConstantRow(r: nat): (row: seq<Word>)
    requires r < 8
    ensures |row| == 8
  {
    if r == 0 then
      [0x428a2f98, 0x71374491, 0xb5c0fbcf, 0xe9b5dba5, 0x3956c25b, 0x59f111f1, 0x923f82a4, 0xab1c5ed5]
    else if r == 1 then
      [0xd807aa98, 0x12835b01, 0x243185be, 0x550c7dc3, 0x72be5d74, 0x80deb1fe, 0x9bdc06a7, 0xc19bf174]
    else if r == 2 then
      [0xe49b69c1, 0xefbe4786, 0x0fc19dc6, 0x240ca1cc, 0x2de92c6f, 0x4a7484aa, 0x5cb0a9dc, 0x76f988da]
    else if r == 3 then
      [0x983e5152, 0xa831c66d, 0xb00327c8, 0xbf597fc7, 0xc6e00bf3, 0xd5a79147, 0x06ca6351, 0x14292967]
    else if r == 4 then
      [0x27b70a85, 0x2e1b2138, 0x4d2c6dfc, 0x53380d13, 0x650a7354, 0x766a0abb, 0x81c2c92e, 0x92722c85]
    else if r == 5 then
      [0xa2bfe8a1, 0xa81a664b, 0xc24b8b70, 0xc76c51a3, 0xd192e819, 0xd6990624, 0xf40e3585, 0x106aa070]
    else if r == 6 then
      [0x19a4c116, 0x1e376c08, 0x2748774c, 0x34b0bcb5, 0x391c0cb3, 0x4ed8aa4a, 0x5b9cca4f, 0x682e6ff3]
    else
      [0x748f82ee, 0x78a5636f, 0x84c87814, 0x8cc70208, 0x90befffa, 0xa4506ceb, 0xbef9a3f7, 0xc67178f2]
  }

  function RoundConstant(t: nat): Word
    requires t < 64
  {
    ConstantRow(t / 8)[t % 8]
  }

  // ------------------------------------------------------------------ word functions

  function AddW(x: Word, y: Word): Word { x + y }

  function SmallSigma0(x: Word): Word
  {
    ((x >> 7) | (x << 25)) ^ ((x >> 18) | (x << 14)) ^ (x >> 3)
  }

  function SmallSigma1(x: Word): Word
  {
    ((x >> 17) | (x << 15)) ^ ((x >> 19) | (x << 13)) ^ (x >> 10)
  }

  function BigSigma0(x: Word): Word
  {
    ((x >> 2) | (x << 30)) ^ ((x >> 13) | (x << 19)) ^ ((x >> 22) | (x << 10))
  }

  function BigSigma1(x: Word): Word
  {
    ((x >> 6) | (x << 26)) ^ ((x >> 11) | (x << 21)) ^ ((x >> 25) | (x << 7))
  }

  function Ch(x: Word, y: Word, z: Word): Word { (x & y) ^ (!x & z) }

  function Maj(x: Word, y: Word, z: Word): Word { (x & y) ^ (x & z) ^ (y & z) }

  // -------------------------------------------------------------------------- rounds

  datatype Regs = Regs(a: Word, b: Word, c: Word, d: Word, e: Word, f: Word, g: Word, h: Word)

  const INITIAL := Regs(0x6a09e667, 0xbb67ae85, 0x3c6ef372, 0xa54ff53a,
                        0x510e527f, 0x9b05688c, 0x1f83d9ab, 0x5be0cd19)

  function Temp1(e: Word, f: Word, g: Word, h: Word, k: Word, w: Word): Word
  {
    AddW(AddW(AddW(AddW(h, BigSigma1(e)), Ch(e, f, g)), k), w)
  }

  function Temp2(a: Word, b: Word, c: Word): Word { AddW(BigSigma0(a), Maj(a, b, c)) }

  function Round(r: Regs, k: Word, w: Word): Regs
  {
    var t1 := Temp1(r.e, r.f, r.g, r.h, k, w);
    var t2 := Temp2(r.a, r.b, r.c);
    Regs(AddW(t1, t2), r.a, r.b, r.c, AddW(r.d, t1), r.e, r.f, r.g)
  }

  function NextWord(w16: Word, w15: Word, w7: Word, w2: Word): Word
  {
    w16 + SmallSigma0(w15) + w7 + SmallSigma1(w2)
  }

  /** The message schedule W_t. */
  function Schedule(block: seq<Word>, t: nat): Word
    requires |block| == 16
  {
    if t < 16 then block[t]
    else NextWord(Schedule(block, t - 16), Schedule(block, t - 15), Schedule(block, t - 7), Schedule(block, t - 2))
  }

  /** The working registers after t rounds. */
  function Rounds(block: seq<Word>, start: Regs, t: nat): Regs
    requires |block| == 16 && t <= 64
  {
    if t == 0 then start
    else Round(Rounds(block, start, t - 1), RoundConstant(t - 1), Schedule(block, t - 1))
  }

  function AddRegs(x: Regs, y: Regs): Regs
  {
    Regs(AddW(x.a, y.a), AddW(x.b, y.b), AddW(x.c, y.c), AddW(x.d, y.d),
         AddW(x.e, y.e), AddW(x.f, y.f), AddW(x.g, y.g), AddW(x.h, y.h))
  }

  function Compress(state: Regs, block: seq<Word>): Regs
    requires |block| == 16
  {
    AddRegs(state, Rounds(block, state, 64))
  }

  lemma RoundsStep(block: seq<Word>, start: Regs, t: nat)
    requires |block| == 16 && t < 64
    ensures Rounds(block, start, t + 1) == Round(Rounds(block, start, t), RoundConstant(t), Schedule(block, t))
  {
    hide AddW, Temp1, Temp2, RoundConstant, Schedule;
  }

  lemma ScheduleStart(block: seq<Word>)
    requires |block| == 16
    ensures forall t :: 0 <= t < 16 ==> Schedule(block, t) == block[t]
  {
  }

  lemma ScheduleNext(block: seq<Word>, t: nat)
    requires |block| == 16 && t >= 16
    ensures Schedule(block, t)
         == NextWord(Schedule(block, t - 16), Schedule(block, t - 15), Schedule(block, t - 7), Schedule(block, t - 2))
  {
    hide NextWord;
  }

  // --------------------------------------------------------------- bytes and padding

  function BigEndian(a: Byte, b: Byte, c: Byte, d: Byte): Word
  {
    ((a as Word) << 24) | ((b as Word) << 16) | ((c as Word) << 8) | (d as Word)
  }

  function ByteOf(w: Word, shift: Word): Byte
    requires shift <= 24
  {
    ((w >> shift) & 0xff) as Byte
  }

  function WordBytes(w: Word): (r: seq<Byte>)
    ensures |r| == 4
  {
    [ByteOf(w, 24), ByteOf(w, 16), ByteOf(w, 8), ByteOf(w, 0)]
  }

  function BlockWords(chunk: seq<Byte>): (block: seq<Word>)
    requires |chunk| == 64
    ensures |block| == 16
  {
    seq(16, i requires 0 <= i < 16 =>
      BigEndian(chunk[4 * i], chunk[4 * i + 1], chunk[4 * i + 2], chunk[4 * i + 3]))
  }

  function HashBlocks(state: Regs, bytes: seq<Byte>): Regs
    requires |bytes| % 64 == 0
    decreases |bytes|
  {
    if |bytes| == 0 then state
    else HashBlocks(Compress(state, BlockWords(bytes[..64])), bytes[64..])
  }

  function Zeros(n: nat): (r: seq<Byte>)
    ensures |r| == n && forall i :: 0 <= i < n ==> r[i] == 0
  {
    seq(n, _ => 0)
  }

  function ToByte(n: nat): Byte { (n % 256) as Byte }

  /** The eight big-endian bytes of a 64-bit counter. */
  function LengthBytes(bits: nat): (r: seq<Byte>)
    ensures |r| == 8
  {
    [ToByte(bits / 0x100_0000_0000_0000), ToByte(bits / 0x1_0000_0000_0000), ToByte(bits / 0x100_0000_0000),
     ToByte(bits / 0x1_0000_0000), ToByte(bits / 0x100_0000), ToByte(bits / 0x1_0000),
     ToByte(bits / 0x100), ToByte(bits)]
  }

  function PadZeros(length: nat): nat { (119 - length % 64) % 64 }

  function Padded(input: seq<Byte>): (r: seq<Byte>)
    ensures |r| % 64 == 0
  {
    hide LengthBytes, PadZeros;
    PadLength(|input|);
    input + [0x80] + Zeros(PadZeros(|input|)) + LengthBytes(8 * |input|)
  }

  lemma PadLength(length: nat)
    ensures (length + 1 + PadZeros(length) + 8) % 64 == 0
  {
  }

  function Digest(input: seq<Byte>): Regs { HashBlocks(INITIAL, Padded(input)) }

  function DigestBytes(r: Regs): (d: seq<Byte>)
    ensures |d| == 32
  {
    WordBytes(r.a) + WordBytes(r.b) + WordBytes(r.c) + WordBytes(r.d)
    + WordBytes(r.e) + WordBytes(r.f) + WordBytes(r.g) + WordBytes(r.h)
  }

  // ------------------------------------------------------------ what the layouts mean

  /** The number that four base-256 digits spell, most significant first. */
  function Spelled(a: nat, b: nat, c: nat, d: nat): nat { 0x100_0000 * a + 0x1_0000 * b + 0x100 * c + d }

  /** Eight bytes that are the base-256 digits of n, most significant first. */
  ghost predicate IsCounter(s: seq<Byte>, n: nat)
  {
    && |s| == 8
    && exists d: seq<nat> ::
      && |d| == 8 && (forall i :: 0 <= i < 8 ==> d[i] < 256 && s[i] == ToByte(d[i]))
      && n == 0x1_0000_0000 * Spelled(d[0], d[1], d[2], d[3]) + Spelled(d[4], d[5], d[6], d[7])
  }

  lemma FourDigits(n: nat, n1: nat, n2: nat, n3: nat)
    requires n1 == n / 0x100 && n2 == n1 / 0x100 && n3 == n2 / 0x100
    ensures 0x100_0000 * (n3 % 0x100) + 0x1_0000 * (n2 % 0x100) + 0x100 * (n1 % 0x100) + n % 0x100
         == n % 0x1_0000_0000
  {
    var n4 := n3 / 0x100;
    var low := 0x100_0000 * (n3 % 0x100) + 0x1_0000 * (n2 % 0x100) + 0x100 * (n1 % 0x100) + n % 0x100;
    assert n3 == 0x100 * n4 + n3 % 0x100;
    assert n2 == 0x100 * n3 + n2 % 0x100;
    assert n1 == 0x100 * n2 + n1 % 0x100;
    assert n == 0x1_0000_0000 * n4 + low;
  }

  lemma DivChain(n: nat)
    ensures n / 0x1_0000 == n / 0x100 / 0x100
    ensures n / 0x100_0000 == n / 0x1_0000 / 0x100
  {
  }

  lemma SpelledDigits(n: nat)
    ensures Spelled(n / 0x100_0000 % 256, n / 0x1_0000 % 256, n / 0x100 % 256, n % 256) == n % 0x1_0000_0000
  {
    DivChain(n);
    FourDigits(n, n / 0x100, n / 0x1_0000, n / 0x100_0000);
  }

  lemma DivHigh(n: nat)
    ensures n / 0x100_0000_0000 == n / 0x1_0000_0000 / 0x100
    ensures n / 0x1_0000_0000_0000 == n / 0x1_0000_0000 / 0x1_0000
    ensures n / 0x100_0000_0000_0000 == n / 0x1_0000_0000 / 0x100_0000
  {
  }

  lemma TwoHalves(n: nat, high: nat)
    requires high == n / 0x1_0000_0000
    ensures 0x1_0000_0000 * (high % 0x1_0000_0000) + n % 0x1_0000_0000 == n % 0x1_0000_0000_0000_0000
  {
    var top := high / 0x1_0000_0000;
    assert high == 0x1_0000_0000 * top + high % 0x1_0000_0000;
    assert n == 0x1_0000_0000_0000_0000 * top + (0x1_0000_0000 * (high % 0x1_0000_0000) + n % 0x1_0000_0000);
  }

  /** The counter holds the length modulo 2^64. */
  lemma CounterValue(bits: nat)
    ensures IsCounter(LengthBytes(bits), bits % 0x1_0000_0000_0000_0000)
  {
    hide Spelled, ToByte;
    DivHigh(bits);
    var high := bits / 0x1_0000_0000;
    SpelledDigits(bits);
    SpelledDigits(high);
    TwoHalves(bits, high);
    var d := [high / 0x100_0000 % 256, high / 0x1_0000 % 256, high / 0x100 % 256, high % 256,
              bits / 0x100_0000 % 256, bits / 0x1_0000 % 256, bits / 0x100 % 256, bits % 256];
    CounterDigits(bits, d);
  }

  lemma ToByteMod(n: nat)
    ensures ToByte(n % 256) == ToByte(n)
  {
    assert n % 256 % 256 == n % 256;
  }

  lemma CounterDigits(bits: nat, d: seq<nat>)
    requires d == [bits / 0x100_0000_0000_0000 % 256, bits / 0x1_0000_0000_0000 % 256,
                   bits / 0x100_0000_0000 % 256, bits / 0x1_0000_0000 % 256,
                   bits / 0x100_0000 % 256, bits / 0x1_0000 % 256, bits / 0x100 % 256, bits % 256]
    ensures forall i :: 0 <= i < 8 ==> d[i] < 256 && LengthBytes(bits)[i] == ToByte(d[i])
  {
    hide ToByte;
    forall n: nat ensures ToByte(n % 256) == ToByte(n) { ToByteMod(n); }
  }

  /** Padding: the input, the byte 0x80, the fewest zeros that fill whole blocks, and the bit count. */
  lemma PaddedLayout(input: seq<Byte>)
    ensures var p := Padded(input);
      && |input| + 9 <= |p| < |input| + 73 && |p| % 64 == 0
      && p[..|input|] == input && p[|input|] == 0x80
      && (forall i :: |input| < i < |p| - 8 ==> p[i] == 0)
      && IsCounter(p[|p| - 8..], 8 * |input| % 0x1_0000_0000_0000_0000)
  {
    hide LengthBytes, IsCounter;
    CounterValue(8 * |input|);
    assert Padded(input)[|Padded(input)| - 8..] == LengthBytes(8 * |input|);
  }

  lemma WordReadBack(w: Word)
    ensures BigEndian(ByteOf(w, 24), ByteOf(w, 16), ByteOf(w, 8), ByteOf(w, 0)) == w
  {
  }

  lemma BytesReadBack(a: Byte, b: Byte, c: Byte, d: Byte)
    ensures WordBytes(BigEndian(a, b, c, d)) == [a, b, c, d]
  {
  }

  /** Word i of a block is bytes 4 i to 4 i + 3, most significant first. */
  lemma BlockLayout(chunk: seq<Byte>, i: nat)
    requires |chunk| == 64 && i < 16
    ensures WordBytes(BlockWords(chunk)[i]) == chunk[4 * i..4 * i + 4]
  {
    hide BigEndian, WordBytes;
    BytesReadBack(chunk[4 * i], chunk[4 * i + 1], chunk[4 * i + 2], chunk[4 * i + 3]);
  }

  /** Blocks are folded from the front: first those of a, then those of b. */
  lemma {:induction false} HashConcat(state: Regs, a: seq<Byte>, b: seq<Byte>)
    requires |a| % 64 == 0 && |b| % 64 == 0
    ensures HashBlocks(state, a + b) == HashBlocks(HashBlocks(state, a), b)
    decreases |a|
  {
    hide HashBlocks, Compress, BlockWords;
    if |a| == 0 {
      HashEnd(state, a);
      assert a + b == b;
    } else {
      HashStep(state, a);
      HashStep(state, a + b);
      assert (a + b)[..64] == a[..64] && (a + b)[64..] == a[64..] + b;
      HashConcat(Compress(state, BlockWords(a[..64])), a[64..], b);
    }
  }

  lemma FourPieces(a: seq<Byte>, b: seq<Byte>, c: seq<Byte>, d: seq<Byte>, i: nat, j: nat)
    requires |a| == |b| == |c| == |d| == 4 && i < 4 && j < 4
    ensures (a + b + c + d)[4 * i + j] == [a, b, c, d][i][j]
  {
    if i == 0 {
    } else if i == 1 {
    } else if i == 2 {
    }
  }

  /** Eight pieces of four bytes, in order. */
  lemma EightPieces(a: seq<Byte>, b: seq<Byte>, c: seq<Byte>, d: seq<Byte>,
                    e: seq<Byte>, f: seq<Byte>, g: seq<Byte>, h: seq<Byte>)
    requires |a| == |b| == |c| == |d| == |e| == |f| == |g| == |h| == 4
    ensures a + b + c + d + e + f + g + h == (a + b + c + d) + (e + f + g + h)
  {
  }

  lemma DigestPiece(r: Regs, i: nat, j: nat)
    requires i < 8 && j < 4
    ensures DigestBytes(r)[4 * i + j] == WordBytes([r.a, r.b, r.c, r.d, r.e, r.f, r.g, r.h][i])[j]
  {
    hide WordBytes;
    EightPieces(WordBytes(r.a), WordBytes(r.b), WordBytes(r.c), WordBytes(r.d),
                WordBytes(r.e), WordBytes(r.f), WordBytes(r.g), WordBytes(r.h));
    var left := WordBytes(r.a) + WordBytes(r.b) + WordBytes(r.c) + WordBytes(r.d);
    var right := WordBytes(r.e) + WordBytes(r.f) + WordBytes(r.g) + WordBytes(r.h);
    assert DigestBytes(r) == left + right;
    hide DigestBytes;
    if i < 4 {
      FourPieces(WordBytes(r.a), WordBytes(r.b), WordBytes(r.c), WordBytes(r.d), i, j);
    } else {
      FourPieces(WordBytes(r.e), WordBytes(r.f), WordBytes(r.g), WordBytes(r.h), i - 4, j);
    }
  }

  /** Read most significant byte first, the digest bytes are the eight words in order. */
  lemma DigestReadBack(r: Regs, i: nat)
    requires i < 8
    ensures var d := DigestBytes(r);
      BigEndian(d[4 * i], d[4 * i + 1], d[4 * i + 2], d[4 * i + 3])
      == [r.a, r.b, r.c, r.d, r.e, r.f, r.g, r.h][i]
  {
    hide BigEndian, ByteOf, DigestBytes;
    var w := [r.a, r.b, r.c, r.d, r.e, r.f, r.g, r.h][i];
    DigestPiece(r, i, 0);
    DigestPiece(r, i, 1);
    DigestPiece(r, i, 2);
    DigestPiece(r, i, 3);
    WordReadBack(w);
  }

  // ------------------------------------------------------------------ the plain program

  /** One block: fill the 64-word schedule, run 64 rounds, add to the state. */
  method CompressBlock(state: Regs, block: seq<Word>) returns (r: Regs)
    requires |block| == 16
    ensures r == Compress(state, block)
  {
    hide AddW, NextWord, BigSigma0, BigSigma1, Ch, Maj, RoundConstant;
    var words := new Word[64](_ => 0);
    for i := 0 to 16
      invariant forall t :: 0 <= t < i ==> words[t] == Schedule(block, t)
    {
      words[i] := block[i];
    }
    for i := 16 to 64
      invariant forall t :: 0 <= t < i ==> words[t] == Schedule(block, t)
    {
      words[i] := NextWord(words[i - 16], words[i - 15], words[i - 7], words[i - 2]);
    }
    var a, b, c, d, e, f, g, h := state.a, state.b, state.c, state.d, state.e, state.f, state.g, state.h;
    for i := 0 to 64
      invariant Regs(a, b, c, d, e, f, g, h) == Rounds(block, state, i)
    {
      var t1 := Temp1(e, f, g, h, RoundConstant(i), words[i]);
      var t2 := Temp2(a, b, c);
      h := g;
      g := f;
      f := e;
      e := AddW(d, t1);
      d := c;
      c := b;
      b := a;
      a := AddW(t1, t2);
    }
    r := AddRegs(state, Regs(a, b, c, d, e, f, g, h));
  }

  /** Append 0x80, then zeros while the length is not 56 modulo 64, then the bit count. */
  method PadInput(input: seq<Byte>) returns (padded: seq<Byte>)
    ensures padded == Padded(input)
  {
    hide LengthBytes, PadZeros;
    padded := input + [0x80];
    while |padded| % 64 != 56
      invariant |input| + 1 <= |padded| <= |input| + 1 + PadZeros(|input|)
      invariant padded == input + [0x80] + Zeros(|padded| - |input| - 1)
      decreases |input| + 1 + PadZeros(|input|) - |padded|
    {
      PadTarget(|input|, |padded| - |input| - 1);
      padded := padded + [0];
    }
    PadTarget(|input|, |padded| - |input| - 1);
    padded := padded + LengthBytes(8 * |input|);
  }

  /** `sha256`: pad, then fold every 64-byte chunk. */
  method Hash(input: seq<Byte>) returns (digest: seq<Byte>)
    ensures digest == DigestBytes(Digest(input))
  {
    hide Compress, BlockWords, Padded, HashBlocks, DigestBytes;
    var padded := PadInput(input);
    var state := INITIAL;
    var rest := padded;
    while |rest| > 0
      invariant |rest| % 64 == 0
      invariant HashBlocks(state, rest) == Digest(input)
    {
      HashStep(state, rest);
      state := CompressBlock(state, BlockWords(rest[..64]));
      rest := rest[64..];
    }
    HashEnd(state, rest);
    digest := DigestBytes(state);
  }

  lemma HashStep(state: Regs, bytes: seq<Byte>)
    requires |bytes| % 64 == 0 && |bytes| > 0
    ensures |bytes| >= 64
    ensures HashBlocks(state, bytes) == HashBlocks(Compress(state, BlockWords(bytes[..64])), bytes[64..])
  {
    hide Compress, BlockWords;
  }

  lemma HashEnd(state: Regs, bytes: seq<Byte>)
    requires |bytes| == 0
    ensures HashBlocks(state, bytes) == state
  {
  }

  lemma PadTarget(length: nat, z: nat)
    requires z <= PadZeros(length)
    ensures (length + 1 + z) % 64 == 56 <==> z == PadZeros(length)
  {
  }
}
