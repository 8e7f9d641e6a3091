/** Planning loader writes: the largest payload that fits a packet, and the fewest writes. */
module Upload {
  import opened Options
  import opened Nonlinear
  import opened Base58
  import opened Wire

  /** Solana's packet data size. */
  const PACKET_BYTES := 1232
  const MAX_OFFSET := 0xffff_ffff

  datatype Write = Write(offset: nat, payload: Bytes)

  function End(w: Write): nat { w.offset + |w.payload| }

  // ------------------------------------------------------------ the write instruction

  function LittleEndian(n: nat, k: nat): (b: Bytes)
    ensures |b| == k
  {
    if k == 0 then [] else [n % 256] + LittleEndian(n / 256, k - 1)
  }

  function FromLittleEndian(b: Bytes): nat
  {
    if b == [] then 0 else b[0] + 256 * FromLittleEndian(b[1..])
  }

  function Pow256(k: nat): nat { if k == 0 then 1 else 256 * Pow256(k - 1) }

  lemma {:induction false} LittleEndianBack(n: nat, k: nat)
    requires n < Pow256(k)
    ensures FromLittleEndian(LittleEndian(n, k)) == n
  {
    if k > 0 {
      LittleEndianBack(n / 256, k - 1);
      assert LittleEndian(n, k)[1..] == LittleEndian(n / 256, k - 1);
    }
  }

  /** u32 variant 1, u32 offset, u64 length, payload. */
  function WriteData(w: Write): (d: Bytes)
    ensures |d| == 16 + |w.payload|
  {
    LittleEndian(1, 4) + LittleEndian(w.offset, 4) + LittleEndian(|w.payload|, 8) + w.payload
  }

  /** The archive's decoding of a write instruction. */
  function DecodeWrite(d: Bytes): Option<Write>
  {
    if |d| < 16 || FromLittleEndian(d[..4]) != 1 || FromLittleEndian(d[8..16]) != |d| - 16 then None
    else Some(Write(FromLittleEndian(d[4..8]), d[16..]))
  }

  /** What is uploaded is what the archive decodes. */
  lemma DecodeWriteData(w: Write)
    requires w.offset < Pow256(4) && |w.payload| < Pow256(8)
    ensures DecodeWrite(WriteData(w)) == Some(w)
  {
    hide LittleEndian, FromLittleEndian, Pow256;
    var d := WriteData(w);
    assert d[..4] == LittleEndian(1, 4) && d[4..8] == LittleEndian(w.offset, 4)
        && d[8..16] == LittleEndian(|w.payload|, 8) && d[16..] == w.payload;
    OneFits();
    LittleEndianBack(1, 4);
    LittleEndianBack(w.offset, 4);
    LittleEndianBack(|w.payload|, 8);
  }

  /** Bytes i to i + 3, least significant first. */
  function FourBytes(b: Bytes, i: nat): nat
    requires i + 4 <= |b|
  {
    var b0: int, b1: int, b2: int, b3: int := b[i], b[i + 1], b[i + 2], b[i + 3];
    b0 + 0x100 * b1 + 0x1_0000 * b2 + 0x100_0000 * b3
  }

  lemma FourBytesValue(b: Bytes, i: nat)
    requires i + 4 <= |b|
    ensures FromLittleEndian(b[i..]) == FourBytes(b, i) + 0x1_0000_0000 * FromLittleEndian(b[i + 4..])
  {
    assert FromLittleEndian(b[i..]) == b[i] + 256 * FromLittleEndian(b[i + 1..]);
    assert FromLittleEndian(b[i + 1..]) == b[i + 1] + 256 * FromLittleEndian(b[i + 2..]);
    assert FromLittleEndian(b[i + 2..]) == b[i + 2] + 256 * FromLittleEndian(b[i + 3..]);
    assert FromLittleEndian(b[i + 3..]) == b[i + 3] + 256 * FromLittleEndian(b[i + 4..]);
  }

  lemma NoBytes()
    ensures FromLittleEndian([]) == 0
  {
  }

  /** Where a write's fields stand: variant 1 in bytes 0 to 3, the offset in 4 to 7, the payload length in 8
      to 15, all least significant byte first, and the payload from 16. */
  lemma DecodeLayout(d: Bytes)
    ensures DecodeWrite(d).Some? <==>
      && |d| >= 16 && FourBytes(d, 0) == 1
      && FourBytes(d, 8) + 0x1_0000_0000 * FourBytes(d, 12) == |d| - 16
    ensures DecodeWrite(d).Some? ==> DecodeWrite(d).value == Write(FourBytes(d, 4), d[16..])
  {
    hide FromLittleEndian;
    if |d| >= 16 {
      var a, b, c := d[..4], d[4..8], d[8..16];
      FourBytesValue(a, 0);
      FourBytesValue(b, 0);
      FourBytesValue(c, 0);
      FourBytesValue(c, 4);
      NoBytes();
      assert a[0..] == a && b[0..] == b && c[0..] == c;
      assert a[4..] == [] && b[4..] == [] && c[8..] == [];
    }
  }

  lemma OneFits()
    ensures 1 < Pow256(4)
  {
  }

  // ------------------------------------------------------------- its complete transaction

  datatype Roles = Roles(payer: Bytes, buffer: Bytes, authority: Bytes, loader: Bytes)
  {
    predicate Sized() { |payer| == |buffer| == |authority| == |loader| == 32 }

    /** One signature when the payer is also the authority. */
    predicate Shared() { payer == authority }
  }

  /** The unsigned legacy transaction carrying one write: signature slots are zero, keys are
      payer, authority if distinct, buffer and loader. */
  function WriteTransaction(roles: Roles, blockhash: Bytes, w: Write): Transaction
  {
    var slot: Bytes := seq(64, _ => 0);
    var ix := Instruction(if roles.Shared() then 2 else 3, Canonical(2), if roles.Shared() then [1, 0] else [2, 1],
                          Canonical(16 + |w.payload|), WriteData(w));
    if roles.Shared() then
      Transaction(Canonical(1), [slot], [1, 0, 1],
                  Canonical(3), [roles.payer, roles.buffer, roles.loader],
                  blockhash, Canonical(1), [ix])
    else
      Transaction(Canonical(2), [slot, slot], [2, 1, 1],
                  Canonical(4), [roles.payer, roles.authority, roles.buffer, roles.loader],
                  blockhash, Canonical(1), [ix])
  }

  lemma ShortLengths(n: nat)
    requires n < 128
    ensures Canonical(n) == [n] && ValidLength([n], 4) && LengthValue([n]) == n
  {
    CanonicalAccepted(n, 1);
  }

  lemma PacketLength(n: nat)
    requires n < Pow128(4)
    ensures ValidLength(Canonical(n), 4) && LengthValue(Canonical(n)) == n
  {
    CanonicalAccepted(n, 4);
  }

  lemma WriteInstructionOk(roles: Roles, w: Write)
    requires 16 + |w.payload| < Pow128(4)
    ensures InstructionOk(Instruction(2, Canonical(2), [1, 0], Canonical(16 + |w.payload|), WriteData(w)), 3)
    ensures InstructionOk(Instruction(3, Canonical(2), [2, 1], Canonical(16 + |w.payload|), WriteData(w)), 4)
  {
    hide Canonical, ValidLength, LengthValue, WriteData, Pow128;
    ShortLengths(2);
    PacketLength(16 + |w.payload|);
  }

  /** It is a well-formed wire, so the archive's parser reads it back. */
  lemma WriteTransactionOk(roles: Roles, blockhash: Bytes, w: Write)
    requires roles.Sized() && |blockhash| == 32 && 16 + |w.payload| < Pow128(4)
    ensures WellFormed(WriteTransaction(roles, blockhash, w))
  {
    hide Canonical, ValidLength, LengthValue, WriteData, InstructionOk, Pow128;
    ShortLengths(1);
    ShortLengths(2);
    ShortLengths(3);
    ShortLengths(4);
    WriteInstructionOk(roles, w);
  }

  /** Its length: a fixed part, the payload, and the length field of the data. */
  function WireBytes(shared: bool, payload: nat): nat
  {
    (if shared then 202 else 298) + |Canonical(16 + payload)| + 16 + payload
  }

  lemma WireBytesExact(roles: Roles, blockhash: Bytes, w: Write)
    requires roles.Sized() && |blockhash| == 32
    ensures |TransactionBytes(WriteTransaction(roles, blockhash, w))| == WireBytes(roles.Shared(), |w.payload|)
  {
    hide Canonical, WriteData;
    ShortLengths(1);
    ShortLengths(2);
    ShortLengths(3);
    ShortLengths(4);
    var tx := WriteTransaction(roles, blockhash, w);
    FlattenLength(tx.signatures, 64);
    FlattenLength(tx.keys, 32);
    OneInstruction(tx.instructions[0]);
  }

  lemma OneInstruction(ix: Instruction)
    ensures AllBytes([ix]) == InstructionBytes(ix)
  {
    assert [ix][1..] == [];
    assert InstructionBytes(ix) + [] == InstructionBytes(ix);
  }

  // ------------------------------------------------------------------- packet-safe search

  predicate Fits(shared: bool, payload: nat) { WireBytes(shared, payload) <= PACKET_BYTES }

  lemma {:induction false} CanonicalGrows(n: nat, m: nat)
    requires n <= m
    ensures 1 <= |Canonical(n)| <= |Canonical(m)|
    decreases m
  {
    if n >= 128 {
      CanonicalGrows(n / 128, m / 128);
    } else if m >= 128 {
      CanonicalGrows(m / 128, m / 128);
    }
  }

  lemma FitsDownward(shared: bool, a: nat, b: nat)
    requires a <= b && Fits(shared, b)
    ensures Fits(shared, a)
  {
    hide Canonical;
    CanonicalGrows(16 + a, 16 + b);
  }

  /** `packet_safe_write_chunk_bytes`: the largest payload whose transaction fits a packet; None
      where the original rejects the roles. */
  method PacketSafeWriteChunkBytes(roles: Roles) returns (chunk: Option<nat>)
    ensures chunk.None? <==> roles.buffer == roles.payer || roles.buffer == roles.authority
    ensures chunk.Some? ==> chunk.value == if roles.Shared() then 1012 else 916
    ensures chunk.Some? ==> chunk.value > 0 && forall n: nat :: Fits(roles.Shared(), n) <==> n <= chunk.value
  {
    hide Fits;
    if roles.buffer == roles.payer || roles.buffer == roles.authority { return None; }
    var shared := roles.Shared();
    var lower: nat, upper: nat := 0, PACKET_BYTES + 1;
    Extremes(shared);
    while lower + 1 < upper
      invariant lower < upper && Fits(shared, lower) && !Fits(shared, upper)
    {
      var candidate := lower + (upper - lower) / 2;
      if Fits(shared, candidate) { lower := candidate; } else { upper := candidate; }
    }
    forall n: nat ensures Fits(shared, n) <==> n <= lower {
      if n <= lower { FitsDownward(shared, n, lower); }
      if n > lower && Fits(shared, n) { FitsDownward(shared, upper, n); }
    }
    LargestChunk(shared);
    chunk := Some(lower);
  }

  /** Two bytes for the data length at either limit. */
  lemma LargestChunk(shared: bool)
    ensures var n := if shared then 1012 else 916; Fits(shared, n) && !Fits(shared, n + 1)
  {
    hide Canonical;
    TwoByteLength(1028);
    TwoByteLength(1029);
    TwoByteLength(932);
    TwoByteLength(933);
  }

  lemma TwoByteLength(n: nat)
    requires 128 <= n < 128 * 128
    ensures |Canonical(n)| == 2
  {
    assert Canonical(n / 128) == [n / 128];
  }

  lemma Extremes(shared: bool)
    ensures Fits(shared, 0) && Fits(shared, 1) && !Fits(shared, PACKET_BYTES + 1)
  {
    hide Canonical;
    CanonicalGrows(17, 17);
    ShortLengths(16);
    ShortLengths(17);
  }

  // ---------------------------------------------------------------------------- the plan

  /** Nonempty slices of the image, one after the other, from start to end. */
  ghost predicate Tiling(ws: seq<Write>, image: Bytes)
  {
    && (forall j :: 0 <= j < |ws| ==>
          ws[j].payload != [] && End(ws[j]) <= |image| && ws[j].payload == image[ws[j].offset..End(ws[j])])
    && (forall j :: 0 < j < |ws| ==> ws[j].offset == End(ws[j - 1]))
    && (if ws == [] then image == [] else ws[0].offset == 0 && End(ws[|ws| - 1]) == |image|)
  }

  function Concat(ws: seq<Write>): Bytes
  {
    if ws == [] then [] else Concat(ws[..|ws| - 1]) + ws[|ws| - 1].payload
  }

  function Contiguous(ws: seq<Write>): bool
  {
    ws == [] || (Contiguous(ws[..|ws| - 1]) && ws[|ws| - 1].offset == |Concat(ws[..|ws| - 1])|)
  }

  /** `reconstruct_program_bytes`: the concatenation, when the offsets are contiguous. */
  method ReconstructProgramBytes(ws: seq<Write>) returns (image: Option<Bytes>)
    ensures image == if Contiguous(ws) then Some(Concat(ws)) else None
  {
    var expected: nat := 0;
    for j := 0 to |ws|
      invariant Contiguous(ws[..j]) && expected == |Concat(ws[..j])|
    {
      assert ws[..j + 1][..j] == ws[..j];
      if ws[j].offset != expected {
        BrokenPrefix(ws, j + 1);
        return None;
      }
      expected := expected + |ws[j].payload|;
    }
    var reconstructed: Bytes := [];
    for j := 0 to |ws|
      invariant reconstructed == Concat(ws[..j])
    {
      assert ws[..j + 1][..j] == ws[..j];
      reconstructed := reconstructed + ws[j].payload;
    }
    assert ws[..|ws|] == ws;
    image := Some(reconstructed);
  }

  lemma {:induction false} BrokenPrefix(ws: seq<Write>, j: nat)
    requires j <= |ws| && !Contiguous(ws[..j])
    ensures !Contiguous(ws)
    decreases |ws| - j
  {
    if j == |ws| {
      assert ws[..j] == ws;
    } else {
      assert ws[..j + 1][..j] == ws[..j];
      BrokenPrefix(ws, j + 1);
    }
  }

  lemma {:induction false} TilingPrefix(ws: seq<Write>, image: Bytes, j: nat)
    requires Tiling(ws, image) && j <= |ws|
    ensures Contiguous(ws[..j]) && Concat(ws[..j]) == image[..if j == 0 then 0 else End(ws[j - 1])]
  {
    if j > 0 {
      TilingPrefix(ws, image, j - 1);
      assert ws[..j][..j - 1] == ws[..j - 1];
      var w := ws[j - 1];
      assert w.offset == if j == 1 then 0 else End(ws[j - 2]);
      assert image[..w.offset] + image[w.offset..End(w)] == image[..End(w)];
    }
  }

  /** The writes of a tiling are contiguous and concatenate to the image. */
  lemma TilingConcat(ws: seq<Write>, image: Bytes)
    requires Tiling(ws, image)
    ensures Contiguous(ws) && Concat(ws) == image
  {
    TilingPrefix(ws, image, |ws|);
    assert ws[..|ws|] == ws;
    assert image[..|image|] == image;
  }

  /** Any list of writes that fit a packet and concatenate to the image. */
  ghost predicate PacketSafe(ws: seq<Write>, shared: bool)
  {
    forall j :: 0 <= j < |ws| ==> Fits(shared, |ws[j].payload|)
  }

  lemma {:induction false} ConcatBound(ws: seq<Write>, chunk: nat)
    requires forall j :: 0 <= j < |ws| ==> |ws[j].payload| <= chunk
    ensures |Concat(ws)| <= chunk * |ws|
  {
    if ws != [] {
      ConcatBound(ws[..|ws| - 1], chunk);
      Distribute(chunk, |ws| - 1, 1);
    }
  }

  lemma Fewest(chunk: nat, length: nat, count: nat, others: nat)
    requires chunk * (count - 1) < length <= chunk * others
    ensures count <= others
  {
    if others < count { MulLe(chunk, others, count - 1); }
  }

  /** `sbf.chunks(chunk)` with their offsets. */
  method CutChunks(sbf: Bytes, chunk: nat) returns (ws: seq<Write>)
    requires sbf != [] && chunk > 0
    ensures Tiling(ws, sbf) && chunk * (|ws| - 1) < |sbf|
    ensures forall j :: 0 <= j < |ws| ==> |ws[j].payload| <= chunk
  {
    hide Tiling;
    ws := [];
    var offset: nat := 0;
    NoTiles(sbf);
    while offset < |sbf|
      invariant offset <= |sbf|
      invariant offset < |sbf| ==> offset == chunk * |ws|
      invariant offset == |sbf| ==> chunk * (|ws| - 1) < |sbf|
      invariant Tiling(ws, sbf[..offset])
      invariant forall j :: 0 <= j < |ws| ==> |ws[j].payload| <= chunk
      decreases |sbf| - offset
    {
      var size := if |sbf| - offset < chunk then |sbf| - offset else chunk;
      Distribute(chunk, |ws|, 1);
      TilingSnoc(ws, sbf, offset, size);
      ws := ws + [Write(offset, sbf[offset..offset + size])];
      offset := offset + size;
    }
    assert sbf[..offset] == sbf;
  }

  lemma NoTiles(sbf: Bytes)
    ensures Tiling([], sbf[..0])
  {
  }

  lemma TilingEnds(ws: seq<Write>, image: Bytes)
    requires Tiling(ws, image)
    ensures forall w :: w in ws ==> End(w) <= |image|
  {
  }

  /** `build_packet_safe_write_plan`: succeeds exactly on an acceptable image and roles, tiles the
      image with packet-safe writes, and no packet-safe plan uses fewer. */
  method BuildPlan(roles: Roles, sbf: Bytes) returns (plan: Option<seq<Write>>)
    ensures plan.Some? <==> 0 < |sbf| <= MAX_OFFSET && roles.buffer != roles.payer && roles.buffer != roles.authority
    ensures plan.Some? ==> Tiling(plan.value, sbf) && PacketSafe(plan.value, roles.Shared())
    ensures plan.Some? ==> forall w :: w in plan.value ==> End(w) <= MAX_OFFSET
    ensures plan.Some? ==> forall others: seq<Write> ::
      PacketSafe(others, roles.Shared()) && Concat(others) == sbf ==> |plan.value| <= |others|
  {
    hide Fits, Concat, Tiling;
    if sbf == [] || |sbf| > MAX_OFFSET { return None; }
    var found := PacketSafeWriteChunkBytes(roles);
    if found.None? { return None; }
    var chunk := found.value;
    var ws := CutChunks(sbf, chunk);
    TilingEnds(ws, sbf);
    TilingConcat(ws, sbf);
    var reconstructed := ReconstructProgramBytes(ws);
    if reconstructed != Some(sbf) { assert false; }
    forall others: seq<Write> | PacketSafe(others, roles.Shared()) && Concat(others) == sbf ensures |ws| <= |others| {
      ConcatBound(others, chunk);
      Fewest(chunk, |sbf|, |ws|, |others|);
    }
    plan := Some(ws);
  }

  lemma TilingSnoc(ws: seq<Write>, sbf: Bytes, offset: nat, size: nat)
    requires 0 < size && offset + size <= |sbf| && Tiling(ws, sbf[..offset])
    ensures Tiling(ws + [Write(offset, sbf[offset..offset + size])], sbf[..offset + size])
  {
    var image, next := sbf[..offset], sbf[..offset + size];
    var w := Write(offset, sbf[offset..offset + size]);
    SameSlice(sbf, offset + size, |sbf|, offset, offset + size);
    assert sbf[..|sbf|] == sbf;
    forall j | 0 <= j < |ws + [w]|
      ensures (ws + [w])[j].payload != [] && End((ws + [w])[j]) <= |next|
      ensures (ws + [w])[j].payload == next[(ws + [w])[j].offset..End((ws + [w])[j])]
    {
      if j < |ws| { SameSlice(sbf, offset, offset + size, ws[j].offset, End(ws[j])); }
    }
  }

  lemma SameSlice(b: Bytes, m: nat, n: nat, i: nat, j: nat)
    requires i <= j <= m <= n <= |b|
    ensures b[..m][i..j] == b[..n][i..j]
  {
  }
}
