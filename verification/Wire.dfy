/** Legacy transaction wires.

  A wire is described by a `Transaction` that keeps the raw bytes of every length field,
  because the reader also accepts lengths with redundant continuation bytes.  Reading
  and writing are then inverse to each other on the nose: every accepted wire is the
  serialisation of exactly one well-formed transaction. */
module Wire {
  import opened Options
  import opened Base58

  // ------------------------------------------------------------------ short-vector lengths

  /** At most k bytes, all but the last with the continuation bit. */
  predicate ValidLength(e: Bytes, k: nat)
  {
    e != [] && k > 0 && if |e| == 1 then e[0] < 128 else e[0] >= 128 && ValidLength(e[1..], k - 1)
  }

  /** Little-endian base 128. */
  function LengthValue(e: Bytes): nat
  {
    if e == [] then 0 else e[0] % 128 + 128 * LengthValue(e[1..])
  }

  /** The low seven bits of byte i, if there is one. */
  function SevenBits(e: Bytes, i: nat): nat { if i < |e| then e[i] % 128 else 0 }

  /** The value, byte by byte: seven bits each, at shifts 0, 7, 14 and 21. */
  lemma LengthExplicit(e: Bytes)
    requires 1 <= |e| <= 4
    ensures LengthValue(e)
         == SevenBits(e, 0) + 0x80 * SevenBits(e, 1) + 0x4000 * SevenBits(e, 2) + 0x20_0000 * SevenBits(e, 3)
  {
    if |e| > 1 {
      assert LengthValue(e[1..]) == e[1] % 128 + 128 * LengthValue(e[2..]);
      if |e| > 2 {
        assert LengthValue(e[2..]) == e[2] % 128 + 128 * LengthValue(e[3..]);
        if |e| > 3 { assert LengthValue(e[3..]) == e[3] % 128 + 128 * LengthValue(e[4..]); }
      }
    }
  }

  /** Split a length field off the front. */
  function TakeLength(b: Bytes, k: nat): (r: Option<(Bytes, Bytes)>)
    decreases k
  {
    if b == [] || k == 0 then None
    else if b[0] < 128 then Some(([b[0]], b[1..]))
    else
      var r := TakeLength(b[1..], k - 1);
      if r.None? then None else Some(([b[0]] + r.value.0, r.value.1))
  }

  lemma {:induction false} TakeLengthSound(b: Bytes, k: nat)
    requires TakeLength(b, k).Some?
    ensures var (e, rest) := TakeLength(b, k).value; ValidLength(e, k) && b == e + rest
    decreases k
  {
    if b[0] >= 128 {
      TakeLengthSound(b[1..], k - 1);
      var (e, rest) := TakeLength(b[1..], k - 1).value;
      assert ([b[0]] + e)[1..] == e;
      assert b == [b[0]] + b[1..] == [b[0]] + e + rest;
    }
  }

  lemma {:induction false} TakeLengthComplete(e: Bytes, rest: Bytes, k: nat)
    requires ValidLength(e, k)
    ensures TakeLength(e + rest, k) == Some((e, rest))
  {
    var b := e + rest;
    assert b[1..] == e[1..] + rest;
    if |e| == 1 {
      assert e == [b[0]] && b[1..] == rest;
    } else {
      TakeLengthComplete(e[1..], rest, k - 1);
      assert e == [b[0]] + e[1..];
    }
  }

  /** The canonical length field. */
  function Canonical(n: nat): (e: Bytes)
  {
    if n < 128 then [n] else [128 + n % 128] + Canonical(n / 128)
  }

  function Pow128(k: nat): nat { if k == 0 then 1 else 128 * Pow128(k - 1) }

  lemma Pow128Step(k: nat)
    requires k > 0
    ensures Pow128(k) == 128 * Pow128(k - 1) && Pow128(0) == 1
  {
  }

  /** Every length below 2^28 has a canonical field the reader accepts. */
  lemma {:induction false} CanonicalAccepted(n: nat, k: nat)
    requires k > 0 && n < Pow128(k)
    ensures ValidLength(Canonical(n), k) && LengthValue(Canonical(n)) == n
  {
    if n < 128 {
      assert LengthValue([n]) == n + 128 * LengthValue([]);
    } else {
      Pow128Step(k);
      CanonicalAccepted(n / 128, k - 1);
      var e := Canonical(n);
      assert e[1..] == Canonical(n / 128);
      assert (128 + n % 128) % 128 == n % 128;
    }
  }

  /** A field is canonical exactly when it does not end in a redundant zero byte; the reader
      accepts the others too. */
  lemma {:induction false} CanonicalExactly(e: Bytes, k: nat)
    requires ValidLength(e, k)
    ensures e == Canonical(LengthValue(e)) <==> |e| == 1 || e[|e| - 1] != 0
    ensures |e| > 1 && e[|e| - 1] != 0 ==> LengthValue(e) >= 128
  {
    if |e| == 1 {
      assert e[1..] == [];
    } else {
      CanonicalExactly(e[1..], k - 1);
      var v := LengthValue(e[1..]);
      assert LengthValue(e) % 128 == e[0] - 128 && LengthValue(e) / 128 == v;
      assert e == [e[0]] + e[1..];
      if |e| == 2 { assert e[1..][1..] == []; }
      assert e[1..][|e| - 2] == e[|e| - 1];
      if v > 0 {
        assert Canonical(LengthValue(e)) == [e[0]] + Canonical(v);
        CanonicalTail(e, v);
      } else {
        CanonicalSmall(e);
      }
    }
  }

  lemma CanonicalTail(e: Bytes, v: nat)
    requires |e| > 1
    ensures e == [e[0]] + Canonical(v) <==> e[1..] == Canonical(v)
  {
    assert ([e[0]] + Canonical(v))[1..] == Canonical(v);
    assert e == [e[0]] + e[1..];
  }

  lemma {:induction false} CanonicalSmall(e: Bytes)
    requires |e| > 1 && LengthValue(e[1..]) == 0
    ensures e[|e| - 1] % 128 == 0
  {
    if |e| > 2 {
      CanonicalSmall(e[1..]);
    } else {
      assert e[1..][1..] == [];
    }
  }

  lemma RedundantZeroAccepted()
    ensures ValidLength([128, 0], 4) && LengthValue([128, 0]) == 0 && Canonical(0) == [0]
  {
    assert [128, 0][1..] == [0];
    assert LengthValue([0]) == 0 + 128 * LengthValue([]);
  }

  // ------------------------------------------------------------------------ fixed-size blocks

  function Flatten(s: seq<Bytes>): Bytes
  {
    if s == [] then [] else Flatten(s[..|s| - 1]) + s[|s| - 1]
  }

  predicate Sized(s: seq<Bytes>, w: nat) { forall i :: 0 <= i < |s| ==> |s[i]| == w }

  /** Cut n blocks of w bytes. */
  function Blocks(b: Bytes, w: nat, n: nat): (s: seq<Bytes>)
    requires |b| == w * n
    ensures |s| == n && Sized(s, w)
  {
    if n == 0 then []
    else
      assert w * n == w * (n - 1) + w;
      Blocks(b[..|b| - w], w, n - 1) + [b[|b| - w..]]
  }

  lemma {:induction false} FlattenBlocks(b: Bytes, w: nat, n: nat)
    requires |b| == w * n
    ensures Flatten(Blocks(b, w, n)) == b
  {
    if n > 0 {
      assert w * n == w * (n - 1) + w;
      FlattenBlocks(b[..|b| - w], w, n - 1);
      var s := Blocks(b, w, n);
      assert s[..n - 1] == Blocks(b[..|b| - w], w, n - 1);
    }
  }

  lemma {:induction false} FlattenLength(s: seq<Bytes>, w: nat)
    requires Sized(s, w)
    ensures |Flatten(s)| == w * |s|
  {
    if s != [] {
      FlattenLength(s[..|s| - 1], w);
      assert w * |s| == w * (|s| - 1) + w;
    }
  }

  lemma {:induction false} BlocksFlatten(s: seq<Bytes>, w: nat)
    requires Sized(s, w)
    ensures |Flatten(s)| == w * |s| && Blocks(Flatten(s), w, |s|) == s
  {
    FlattenLength(s, w);
    if s != [] {
      var init := s[..|s| - 1];
      FlattenLength(init, w);
      BlocksFlatten(init, w);
      var b := Flatten(s);
      assert w * |s| == w * (|s| - 1) + w;
      assert b[..|b| - w] == Flatten(init) && b[|b| - w..] == s[|s| - 1];
      assert s == init + [s[|s| - 1]];
    }
  }

  /** Block i of a flattened list. */
  lemma {:induction false} FlattenAt(s: seq<Bytes>, w: nat, i: nat)
    requires Sized(s, w) && i < |s|
    ensures 0 <= w * i && w * i + w <= |Flatten(s)| && Flatten(s)[w * i..w * i + w] == s[i]
  {
    hide Flatten;
    var n := |s| - 1;
    FlattenLength(s[..n], w);
    LastBlock(s, Flatten(s[..n]), w * n, w * i, w);
    if i < n {
      FlattenAt(s[..n], w, i);
    }
  }

  /** The blocks of all but the last element keep their places. */
  lemma LastBlock(s: seq<Bytes>, before: Bytes, m: nat, at: int, w: nat)
    requires s != [] && before == Flatten(s[..|s| - 1]) && |before| == m && |s[|s| - 1]| == w
    ensures |Flatten(s)| == m + w && Flatten(s)[m..m + w] == s[|s| - 1]
    ensures 0 <= at && at + w <= m ==> Flatten(s)[at..at + w] == before[at..at + w]
  {
    assert Flatten(s) == before + s[|s| - 1];
  }

  // ------------------------------------------------------------------------- instructions

  datatype Instruction = Instruction(
    program: Octet, accountsLength: Bytes, accounts: Bytes, dataLength: Bytes, data: Bytes)

  /** Length fields that match, and every index below the number of keys. */
  predicate InstructionOk(ix: Instruction, keyCount: nat)
  {
    && ValidLength(ix.accountsLength, 4) && LengthValue(ix.accountsLength) == |ix.accounts|
    && ValidLength(ix.dataLength, 4) && LengthValue(ix.dataLength) == |ix.data|
    && ix.program < keyCount && (forall i :: 0 <= i < |ix.accounts| ==> ix.accounts[i] < keyCount)
  }

  function InstructionBytes(ix: Instruction): Bytes
  {
    [ix.program] + (ix.accountsLength + (ix.accounts + (ix.dataLength + ix.data)))
  }

  /** Program index, account count, account indices, data length, data: in this order. */
  lemma InstructionLayout(ix: Instruction)
    ensures var b := InstructionBytes(ix);
      var a := 1 + |ix.accountsLength|;
      var d := a + |ix.accounts| + |ix.dataLength|;
      && |b| == d + |ix.data| && b[0] == ix.program
      && b[1..a] == ix.accountsLength && b[a..a + |ix.accounts|] == ix.accounts
      && b[a + |ix.accounts|..d] == ix.dataLength && b[d..] == ix.data
  {
  }

  /** A length field and that many bytes. */
  function TakeVector(b: Bytes): (r: Option<(Bytes, Bytes, Bytes)>)
  {
    var r := TakeLength(b, 4);
    if r.None? then None
    else
      var (e, rest) := r.value;
      var n := LengthValue(e);
      if n > |rest| then None else Some((e, rest[..n], rest[n..]))
  }

  lemma TakeVectorSound(b: Bytes)
    requires TakeVector(b).Some?
    ensures var (e, v, rest) := TakeVector(b).value;
      ValidLength(e, 4) && LengthValue(e) == |v| && b == e + (v + rest)
  {
    hide TakeLength, LengthValue, ValidLength;
    TakeLengthSound(b, 4);
  }

  lemma TakeVectorComplete(e: Bytes, v: Bytes, rest: Bytes)
    requires ValidLength(e, 4) && LengthValue(e) == |v|
    ensures TakeVector(e + (v + rest)) == Some((e, v, rest))
  {
    hide TakeLength, LengthValue, ValidLength;
    TakeLengthComplete(e, v + rest, 4);
  }

  function TakeInstruction(b: Bytes, keyCount: nat): (r: Option<(Instruction, Bytes)>)
  {
    if b == [] then None
    else
      var accounts := TakeVector(b[1..]);
      if accounts.None? then None
      else
        var data := TakeVector(accounts.value.2);
        if data.None? then None
        else
          var ix := Instruction(b[0], accounts.value.0, accounts.value.1, data.value.0, data.value.1);
          if ix.program >= keyCount || exists i :: 0 <= i < |ix.accounts| && ix.accounts[i] >= keyCount then None
          else Some((ix, data.value.2))
  }

  lemma TakeInstructionSound(b: Bytes, keyCount: nat)
    requires TakeInstruction(b, keyCount).Some?
    ensures var (ix, rest) := TakeInstruction(b, keyCount).value;
      InstructionOk(ix, keyCount) && b == InstructionBytes(ix) + rest
  {
    hide TakeVector, LengthValue, ValidLength;
    var (ix, rest) := TakeInstruction(b, keyCount).value;
    TakeVectorSound(b[1..]);
    TakeVectorSound(TakeVector(b[1..]).value.2);
    assert b == [b[0]] + b[1..];
    Regroup(ix.accountsLength, ix.accounts, ix.dataLength, ix.data, rest);
  }

  lemma Regroup(a: Bytes, b: Bytes, c: Bytes, d: Bytes, rest: Bytes)
    ensures a + (b + (c + (d + rest))) == (a + (b + (c + d))) + rest
  {
  }

  lemma TakeInstructionComplete(ix: Instruction, rest: Bytes, keyCount: nat)
    requires InstructionOk(ix, keyCount)
    ensures TakeInstruction(InstructionBytes(ix) + rest, keyCount) == Some((ix, rest))
  {
    hide TakeVector, LengthValue, ValidLength;
    var b := InstructionBytes(ix) + rest;
    Regroup(ix.accountsLength, ix.accounts, ix.dataLength, ix.data, rest);
    assert b[1..] == ix.accountsLength + (ix.accounts + (ix.dataLength + (ix.data + rest)));
    TakeVectorComplete(ix.accountsLength, ix.accounts, ix.dataLength + (ix.data + rest));
    TakeVectorComplete(ix.dataLength, ix.data, rest);
  }

  function AllBytes(ixs: seq<Instruction>): Bytes
  {
    if ixs == [] then [] else InstructionBytes(ixs[0]) + AllBytes(ixs[1..])
  }

  function TakeAll(b: Bytes, n: nat, keyCount: nat): (r: Option<(seq<Instruction>, Bytes)>)
    decreases n
  {
    if n == 0 then Some(([], b))
    else
      var first := TakeInstruction(b, keyCount);
      if first.None? then None
      else
        var others := TakeAll(first.value.1, n - 1, keyCount);
        if others.None? then None else Some(([first.value.0] + others.value.0, others.value.1))
  }

  lemma {:induction false} TakeAllSound(b: Bytes, n: nat, keyCount: nat)
    requires TakeAll(b, n, keyCount).Some?
    ensures var (ixs, rest) := TakeAll(b, n, keyCount).value;
      |ixs| == n && (forall i :: 0 <= i < n ==> InstructionOk(ixs[i], keyCount)) && b == AllBytes(ixs) + rest
    decreases n
  {
    hide TakeInstruction, InstructionOk, InstructionBytes;
    if n > 0 {
      TakeInstructionSound(b, keyCount);
      var (ix, mid) := TakeInstruction(b, keyCount).value;
      TakeAllSound(mid, n - 1, keyCount);
      var (ixs, rest) := TakeAll(mid, n - 1, keyCount).value;
      assert ([ix] + ixs)[1..] == ixs;
      assert InstructionBytes(ix) + (AllBytes(ixs) + rest) == (InstructionBytes(ix) + AllBytes(ixs)) + rest;
    }
  }

  lemma {:induction false} TakeAllComplete(ixs: seq<Instruction>, rest: Bytes, keyCount: nat)
    requires forall i :: 0 <= i < |ixs| ==> InstructionOk(ixs[i], keyCount)
    ensures TakeAll(AllBytes(ixs) + rest, |ixs|, keyCount) == Some((ixs, rest))
  {
    hide TakeInstruction, InstructionOk, InstructionBytes;
    if ixs != [] {
      var mid := AllBytes(ixs[1..]) + rest;
      assert AllBytes(ixs) + rest == InstructionBytes(ixs[0]) + mid;
      TakeInstructionComplete(ixs[0], mid, keyCount);
      TakeAllComplete(ixs[1..], rest, keyCount);
      assert [ixs[0]] + ixs[1..] == ixs;
    } else {
      assert AllBytes(ixs) + rest == rest;
    }
  }

  // ------------------------------------------------------------------------- transactions

  datatype Transaction = Transaction(
    signaturesLength: Bytes, signatures: seq<Bytes>,
    header: Bytes,
    keysLength: Bytes, keys: seq<Bytes>,
    blockhash: Bytes,
    instructionsLength: Bytes, instructions: seq<Instruction>)

  predicate WellFormed(tx: Transaction)
  {
    && ValidLength(tx.signaturesLength, 4) && LengthValue(tx.signaturesLength) == |tx.signatures|
    && Sized(tx.signatures, 64)
    && ValidLength(tx.keysLength, 4) && LengthValue(tx.keysLength) == |tx.keys| && Sized(tx.keys, 32)
    && ValidLength(tx.instructionsLength, 4) && LengthValue(tx.instructionsLength) == |tx.instructions|
    && |tx.header| == 3 && |tx.blockhash| == 32
    && 1 <= |tx.signatures| == tx.header[0] < 128
    && tx.header[1] <= tx.header[0] && tx.header[0] + tx.header[2] <= |tx.keys|
    && (forall i :: 0 <= i < |tx.instructions| ==> InstructionOk(tx.instructions[i], |tx.keys|))
  }

  function MessageBytes(tx: Transaction): Bytes
  {
    tx.header
    + (tx.keysLength + (Flatten(tx.keys) + (tx.blockhash + (tx.instructionsLength + AllBytes(tx.instructions)))))
  }

  /** The serialisation. */
  function TransactionBytes(tx: Transaction): Bytes
  {
    tx.signaturesLength + (Flatten(tx.signatures) + MessageBytes(tx))
  }

  /** Count, then signatures of 64 bytes each. */
  ghost predicate SignaturesAt(tx: Transaction, b: Bytes)
  {
    var s := |tx.signaturesLength|;
    && s + 64 * |tx.signatures| <= |b| && b[..s] == tx.signaturesLength
    && forall i :: 0 <= i < |tx.signatures| ==> b[s + 64 * i..s + 64 * i + 64] == tx.signatures[i]
  }

  /** From h on: three header bytes, key count, keys of 32 bytes each. */
  ghost predicate KeysAt(tx: Transaction, b: Bytes, h: nat)
  {
    var k := h + 3 + |tx.keysLength|;
    && k + 32 * |tx.keys| <= |b| && b[h..h + 3] == tx.header && b[h + 3..k] == tx.keysLength
    && forall i :: 0 <= i < |tx.keys| ==> b[k + 32 * i..k + 32 * i + 32] == tx.keys[i]
  }

  /** From r on: 32 bytes of blockhash, instruction count, instructions to the end. */
  ghost predicate InstructionsAt(tx: Transaction, b: Bytes, r: nat)
  {
    var e := r + 32 + |tx.instructionsLength|;
    && e <= |b| && b[r..r + 32] == tx.blockhash && b[r + 32..e] == tx.instructionsLength
    && b[e..] == AllBytes(tx.instructions)
  }

  /** Where the fields of a transaction stand on the wire. */
  lemma TransactionLayout(tx: Transaction)
    requires WellFormed(tx)
    ensures var b := TransactionBytes(tx);
      var h := |tx.signaturesLength| + 64 * |tx.signatures|;
      var r := h + 3 + |tx.keysLength| + 32 * |tx.keys|;
      SignaturesAt(tx, b) && KeysAt(tx, b, h) && InstructionsAt(tx, b, r)
  {
    hide ValidLength, LengthValue, InstructionOk, AllBytes, Flatten, Sized, KeysAt, InstructionsAt, MessageBytes;
    var b, s := TransactionBytes(tx), |tx.signaturesLength|;
    FlattenLength(tx.signatures, 64);
    assert b[0..] == b;
    Piece(b, 0, tx.signaturesLength, Flatten(tx.signatures) + MessageBytes(tx));
    Piece(b, s, Flatten(tx.signatures), MessageBytes(tx));
    BlocksAt(b, s, tx.signatures, 64);
    MessageLayout(tx, b, s + 64 * |tx.signatures|);
  }

  lemma MessageLayout(tx: Transaction, b: Bytes, h: nat)
    requires WellFormed(tx) && h <= |b| && b[h..] == MessageBytes(tx)
    ensures KeysAt(tx, b, h) && InstructionsAt(tx, b, h + 3 + |tx.keysLength| + 32 * |tx.keys|)
  {
    hide ValidLength, LengthValue, InstructionOk, AllBytes, Flatten, Sized, InstructionsAt;
    var k := h + 3 + |tx.keysLength|;
    var all := AllBytes(tx.instructions);
    var body := tx.blockhash + (tx.instructionsLength + all);
    FlattenLength(tx.keys, 32);
    Piece(b, h, tx.header, tx.keysLength + (Flatten(tx.keys) + body));
    Piece(b, h + 3, tx.keysLength, Flatten(tx.keys) + body);
    Piece(b, k, Flatten(tx.keys), body);
    BlocksAt(b, k, tx.keys, 32);
    BodyLayout(tx, b, k + 32 * |tx.keys|);
  }

  lemma BodyLayout(tx: Transaction, b: Bytes, r: nat)
    requires |tx.blockhash| == 32 && r <= |b|
    requires b[r..] == tx.blockhash + (tx.instructionsLength + AllBytes(tx.instructions))
    ensures InstructionsAt(tx, b, r)
  {
    hide AllBytes;
    Piece(b, r, tx.blockhash, tx.instructionsLength + AllBytes(tx.instructions));
    Piece(b, r + 32, tx.instructionsLength, AllBytes(tx.instructions));
  }

  lemma Piece(b: Bytes, at: nat, piece: Bytes, rest: Bytes)
    requires at <= |b| && b[at..] == piece + rest
    ensures at + |piece| <= |b| && b[at..at + |piece|] == piece && b[at + |piece|..] == rest
  {
    assert b[at..][..|piece|] == b[at..at + |piece|];
    assert b[at..][|piece|..] == b[at + |piece|..];
  }

  lemma BlocksAt(b: Bytes, at: nat, s: seq<Bytes>, w: nat)
    requires Sized(s, w) && at + |Flatten(s)| <= |b| && b[at..at + |Flatten(s)|] == Flatten(s)
    ensures forall i :: 0 <= i < |s| ==>
      0 <= w * i && at + w * i + w <= |b| && b[at + w * i..at + w * i + w] == s[i]
  {
    hide Flatten;
    forall i | 0 <= i < |s|
      ensures 0 <= w * i && at + w * i + w <= |b| && b[at + w * i..at + w * i + w] == s[i]
    {
      FlattenAt(s, w, i);
      SliceSlice(b, at, at + |Flatten(s)|, w * i, w * i + w);
    }
  }

  /** Keys, blockhash and instructions, after the header. */
  function TakeBody(b: Bytes, header: Bytes): (r: Option<(Bytes, seq<Bytes>, Bytes, Bytes, seq<Instruction>)>)
    requires |header| == 3
  {
    var keysLength := TakeLength(b, 4);
    if keysLength.None? then None
    else
      var (ke, kb) := keysLength.value;
      var keyCount := LengthValue(ke);
      if 32 * keyCount + 32 > |kb| || header[1] > header[0] || header[2] > keyCount - header[0] then None
      else
        var count := TakeLength(kb[32 * keyCount + 32..], 4);
        if count.None? then None
        else
          var (ie, ib) := count.value;
          var ixs := TakeAll(ib, LengthValue(ie), keyCount);
          if ixs.None? || ixs.value.1 != [] then None
          else
            var hash := kb[32 * keyCount..32 * keyCount + 32];
            Some((ke, Blocks(kb[..32 * keyCount], 32, keyCount), hash, ie, ixs.value.0))
  }

  function TakeTransaction(wire: Bytes): (r: Option<Transaction>)
  {
    var signaturesLength := TakeLength(wire, 4);
    if signaturesLength.None? then None
    else
      var (se, sb) := signaturesLength.value;
      var n := LengthValue(se);
      if n < 1 || 64 * n + 3 > |sb| || sb[64 * n] >= 128 || sb[64 * n] != n then None
      else
        var header := sb[64 * n..64 * n + 3];
        var body := TakeBody(sb[64 * n + 3..], header);
        if body.None? then None
        else
          var (ke, keys, hash, ie, ixs) := body.value;
          Some(Transaction(se, Blocks(sb[..64 * n], 64, n), header, ke, keys, hash, ie, ixs))
  }

  ghost predicate BodyOk(b: Bytes, header: Bytes, ke: Bytes, keys: seq<Bytes>, hash: Bytes, ie: Bytes,
      ixs: seq<Instruction>)
    requires |header| == 3
  {
    && ValidLength(ke, 4) && LengthValue(ke) == |keys| && Sized(keys, 32)
    && ValidLength(ie, 4) && LengthValue(ie) == |ixs| && |hash| == 32
    && header[1] <= header[0] && header[0] + header[2] <= |keys|
    && (forall i :: 0 <= i < |ixs| ==> InstructionOk(ixs[i], |keys|))
    && b == ke + (Flatten(keys) + (hash + (ie + AllBytes(ixs))))
  }

  lemma TakeBodySound(b: Bytes, header: Bytes)
    requires |header| == 3 && TakeBody(b, header).Some?
    ensures var (ke, keys, hash, ie, ixs) := TakeBody(b, header).value; BodyOk(b, header, ke, keys, hash, ie, ixs)
  {
    hide TakeLength, LengthValue, ValidLength, TakeAll, AllBytes, InstructionOk, Blocks, Flatten;
    var (ke, kb) := TakeLength(b, 4).value;
    TakeLengthSound(b, 4);
    var k := LengthValue(ke);
    var tail := kb[32 * k + 32..];
    TakeLengthSound(tail, 4);
    var (ie, ib) := TakeLength(tail, 4).value;
    TakeAllSound(ib, LengthValue(ie), k);
    var (ixs, rest) := TakeAll(ib, LengthValue(ie), k).value;
    FlattenBlocks(kb[..32 * k], 32, k);
    assert ib == AllBytes(ixs) + [] == AllBytes(ixs);
    SplitThree(kb, 32 * k, 32 * k + 32);
  }

  lemma SliceSlice(b: Bytes, o: nat, m: nat, i: nat, j: nat)
    requires i <= j && o + j <= m <= |b|
    ensures b[o..m][i..j] == b[o + i..o + j]
  {
    forall k | 0 <= k < j - i ensures b[o..m][i..j][k] == b[o + i..o + j][k] {
    }
  }

  lemma SplitThree(b: Bytes, i: nat, j: nat)
    requires i <= j <= |b|
    ensures b == b[..i] + (b[i..j] + b[j..])
  {
  }

  lemma TakeBodyComplete(b: Bytes, header: Bytes, ke: Bytes, keys: seq<Bytes>, hash: Bytes, ie: Bytes,
      ixs: seq<Instruction>)
    requires |header| == 3 && BodyOk(b, header, ke, keys, hash, ie, ixs)
    ensures TakeBody(b, header) == Some((ke, keys, hash, ie, ixs))
  {
    hide TakeLength, LengthValue, ValidLength, TakeAll, AllBytes, InstructionOk, Blocks, Flatten, Sized;
    var tail := ie + AllBytes(ixs);
    var kb := Flatten(keys) + (hash + tail);
    TakeLengthComplete(ke, kb, 4);
    BlocksFlatten(keys, 32);
    var k := |keys|;
    assert kb[..32 * k] == Flatten(keys);
    assert kb[32 * k..32 * k + 32] == hash;
    assert kb[32 * k + 32..] == tail;
    TakeLengthComplete(ie, AllBytes(ixs), 4);
    TakeAllComplete(ixs, [], k);
    assert AllBytes(ixs) + [] == AllBytes(ixs);
  }

  /** Every accepted wire is, byte for byte, the serialisation of the transaction read from
      it: all bytes are consumed exactly once and every index is in range. */
  lemma ReadThenWrite(wire: Bytes)
    requires TakeTransaction(wire).Some?
    ensures WellFormed(TakeTransaction(wire).value) && TransactionBytes(TakeTransaction(wire).value) == wire
  {
    hide TakeLength, LengthValue, ValidLength, TakeBody, AllBytes, InstructionOk, Blocks, Flatten;
    TakeLengthSound(wire, 4);
    var (se, sb) := TakeLength(wire, 4).value;
    var n := LengthValue(se);
    FlattenBlocks(sb[..64 * n], 64, n);
    TakeBodySound(sb[64 * n + 3..], sb[64 * n..64 * n + 3]);
    SplitThree(sb, 64 * n, 64 * n + 3);
  }

  /** Every well-formed transaction is read back unchanged. */
  lemma WriteThenRead(tx: Transaction)
    requires WellFormed(tx)
    ensures TakeTransaction(TransactionBytes(tx)) == Some(tx)
  {
    hide TakeLength, LengthValue, ValidLength, TakeBody, AllBytes, InstructionOk, Blocks, Flatten, Sized;
    var tail := tx.blockhash + (tx.instructionsLength + AllBytes(tx.instructions));
    var body := tx.keysLength + (Flatten(tx.keys) + tail);
    var sb := Flatten(tx.signatures) + MessageBytes(tx);
    TakeLengthComplete(tx.signaturesLength, sb, 4);
    BlocksFlatten(tx.signatures, 64);
    var n := |tx.signatures|;
    assert sb[..64 * n] == Flatten(tx.signatures);
    assert sb[64 * n..64 * n + 3] == tx.header;
    assert sb[64 * n] == tx.header[0];
    assert sb[64 * n + 3..] == body;
    TakeBodyComplete(body, tx.header, tx.keysLength, tx.keys, tx.blockhash, tx.instructionsLength, tx.instructions);
  }
}
