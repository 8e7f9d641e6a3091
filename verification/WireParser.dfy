/** The cursor-driven parser and the dictionary it returns. */
module WireParser {
  import opened Options
  import Nonlinear
  import opened Base58
  import opened Wire

  datatype ParsedInstruction = ParsedInstruction(
    program: string, programIndex: Octet, accounts: seq<string>, accountIndices: Bytes, data: Bytes)

  datatype Parsed = Parsed(
    signatures: seq<string>, header: Bytes, keys: seq<string>, instructions: seq<ParsedInstruction>, message: Bytes)

  function Names(blocks: seq<Bytes>): (s: seq<string>)
    ensures |s| == |blocks|
  {
    seq(|blocks|, i requires 0 <= i < |blocks| => Encode(blocks[i]))
  }

  function ViewInstruction(ix: Instruction, keys: seq<string>): ParsedInstruction
    requires InstructionOk(ix, |keys|)
  {
    ParsedInstruction(keys[ix.program], ix.program,
      seq(|ix.accounts|, i requires 0 <= i < |ix.accounts| => keys[ix.accounts[i]]), ix.accounts, ix.data)
  }

  function ViewAll(ixs: seq<Instruction>, keys: seq<string>): (r: seq<ParsedInstruction>)
    requires forall i :: 0 <= i < |ixs| ==> InstructionOk(ixs[i], |keys|)
    ensures |r| == |ixs|
  {
    seq(|ixs|, i requires 0 <= i < |ixs| => ViewInstruction(ixs[i], keys))
  }

  /** What the parser reports about a transaction. */
  function View(tx: Transaction): Parsed
    requires WellFormed(tx)
  {
    Parsed(Names(tx.signatures), tx.header, Names(tx.keys), ViewAll(tx.instructions, Names(tx.keys)), MessageBytes(tx))
  }

  /** The report determines the transaction up to the raw bytes of the signature count, the one
      length field outside the message: redundant bytes there are all it cannot see. */
  lemma ViewInjective(a: Transaction, b: Transaction)
    requires WellFormed(a) && WellFormed(b)
    ensures View(a) == View(b) <==> a.(signaturesLength := b.signaturesLength) == b
  {
    hide Encode, MessageBytes, ViewAll, LengthValue, ValidLength, InstructionOk, Sized, Flatten;
    var c := a.(signaturesLength := b.signaturesLength);
    SameMessage(a, c);
    if View(a) == View(b) {
      NamesInjective(a.signatures, b.signatures);
      WriteThenRead(c);
      WriteThenRead(b);
    }
  }

  lemma SameMessage(a: Transaction, c: Transaction)
    requires c == a.(signaturesLength := c.signaturesLength)
    ensures MessageBytes(c) == MessageBytes(a)
  {
  }

  lemma NamesInjective(a: seq<Bytes>, b: seq<Bytes>)
    requires Names(a) == Names(b)
    ensures a == b
  {
    hide Encode;
    assert |Names(a)| == |Names(b)|;
    forall i | 0 <= i < |a| ensures a[i] == b[i] {
      assert Names(a)[i] == Names(b)[i];
      DecodeEncode(a[i]);
      DecodeEncode(b[i]);
    }
  }

  // ------------------------------------------------------------------------ read_shortvec

  function Rest(raw: Bytes, offset: nat): Bytes { if offset <= |raw| then raw[offset..] else [] }

  /** The value of the length field at an offset, and the offset after it. */
  function Shortvec(raw: Bytes, start: nat): Option<(nat, nat)>
  {
    var t := TakeLength(Rest(raw, start), 4);
    if t.None? then None
    else
      var next: nat := start + |t.value.0|;
      Some((LengthValue(t.value.0), next))
  }

  lemma {:induction false} LengthSnoc(p: Bytes, x: Octet)
    ensures LengthValue(p + [x]) == LengthValue(p) + Pow128(|p|) * (x % 128)
  {
    if p == [] {
      assert LengthValue([x]) == x % 128 + 128 * LengthValue([]);
    } else {
      LengthSnoc(p[1..], x);
      assert (p + [x])[1..] == p[1..] + [x];
      Spread(Pow128(|p| - 1), x % 128);
    }
  }

  lemma Spread(w: nat, d: nat)
    ensures 128 * (w * d) == (128 * w) * d
  {
  }

  /** `read_shortvec`: up to four bytes, shifts 0, 7, 14 and 21.  The partial value stays below
      the weight of the next group, so adding a group is the same as or-ing it in. */
  method ReadShortvec(raw: Bytes, start: nat) returns (r: Option<(nat, nat)>)
    ensures r == Shortvec(raw, start)
    ensures r.Some? ==> start < r.value.1 <= |raw|
  {
    hide LengthValue, Pow128, TakeLength, Prepend, Group;
    var value, shift, weight, offset: nat := 0, 0, 1, start;
    ghost var t := TakeLength(Rest(raw, start), 4);
    ghost var p: Bytes := [];
    LengthStart();
    PrependNothing(t);
    while true
      invariant shift == 7 * |p| && |p| <= 4 && weight == Pow128(|p|)
      invariant value == LengthValue(p) < weight
      invariant offset == start + |p| && (p != [] ==> offset <= |raw|)
      invariant t == Prepend(p, TakeLength(Rest(raw, offset), 4 - |p|))
      decreases 4 - |p|
    {
      TakeStep(Rest(raw, offset), 4 - |p|, p);
      if offset >= |raw| || shift > 21 {
        return None;
      }
      var byte := raw[offset];
      assert Rest(raw, offset)[0] == byte && Rest(raw, offset)[1..] == Rest(raw, offset + 1);
      offset := offset + 1;
      GroupStep(p, byte);
      PrependSnoc(p, byte, TakeLength(Rest(raw, offset), 4 - |p| - 1));
      value := value + Group(weight, byte);
      p := p + [byte];
      if byte < 128 {
        return Some((value, offset));
      }
      shift := shift + 7;
      weight := 128 * weight;
    }
  }

  lemma LengthStart()
    ensures LengthValue([]) == 0 && Pow128(0) == 1
  {
  }

  /** (byte & 0x7f) << shift, for the weight 2^shift. */
  function Group(weight: nat, byte: Octet): nat { weight * (byte % 128) }

  lemma GroupStep(p: Bytes, byte: Octet)
    requires LengthValue(p) < Pow128(|p|)
    ensures LengthValue(p + [byte]) == LengthValue(p) + Group(Pow128(|p|), byte)
    ensures LengthValue(p + [byte]) < 128 * Pow128(|p|) == Pow128(|p| + 1)
  {
    LengthSnoc(p, byte);
    Nonlinear.MulLe(Pow128(|p|), byte % 128, 127);
  }

  function Prepend(p: Bytes, t: Option<(Bytes, Bytes)>): Option<(Bytes, Bytes)>
  {
    if t.None? then None else Some((p + t.value.0, t.value.1))
  }

  lemma PrependNothing(t: Option<(Bytes, Bytes)>)
    ensures Prepend([], t) == t
  {
    if t.Some? { assert [] + t.value.0 == t.value.0; }
  }

  /** One byte of a length field, after those of p. */
  lemma TakeStep(b: Bytes, k: nat, p: Bytes)
    ensures b == [] || k == 0 ==> Prepend(p, TakeLength(b, k)) == None
    ensures b != [] && k > 0 && b[0] < 128 ==> Prepend(p, TakeLength(b, k)) == Some((p + [b[0]], b[1..]))
    ensures b != [] && k > 0 && b[0] >= 128 ==> TakeLength(b, k) == Prepend([b[0]], TakeLength(b[1..], k - 1))
  {
  }

  lemma PrependSnoc(p: Bytes, x: Octet, t: Option<(Bytes, Bytes)>)
    ensures Prepend(p, Prepend([x], t)) == Prepend(p + [x], t)
  {
    if t.Some? { assert p + ([x] + t.value.0) == (p + [x]) + t.value.0; }
  }

  // ----------------------------------------------------------------------- the parser

  lemma RestAfter(raw: Bytes, offset: nat, e: Bytes, rest: Bytes)
    requires offset <= |raw| && Rest(raw, offset) == e + rest
    ensures offset + |e| <= |raw| && Rest(raw, offset + |e|) == rest
  {
    assert raw[offset..][|e|..] == raw[offset + |e|..];
  }

  /** A length field at the cursor, described by what it leaves. */
  lemma ShortvecRest(raw: Bytes, offset: nat)
    requires offset <= |raw| && Shortvec(raw, offset).Some?
    ensures var (n, next) := Shortvec(raw, offset).value; var t := TakeLength(Rest(raw, offset), 4);
      t.Some? && n == LengthValue(t.value.0) && next <= |raw| && Rest(raw, next) == t.value.1
  {
    hide TakeLength;
    TakeLengthSound(Rest(raw, offset), 4);
    var (e, rest) := TakeLength(Rest(raw, offset), 4).value;
    RestAfter(raw, offset, e, rest);
  }

  /** The Base58 names of n consecutive blocks of w bytes. */
  method NameBlocks(raw: Bytes, offset: nat, w: nat, n: nat) returns (names: seq<string>)
    requires offset + w * n <= |raw|
    ensures names == Names(Blocks(raw[offset..offset + w * n], w, n))
  {
    hide Encode, Blocks;
    names := [];
    ghost var all := raw[offset..offset + w * n];
    assert w * 0 == 0;
    NoBlocks(all[..0], w);
    for index := 0 to n
      invariant 0 <= w * index <= w * n && names == Names(Blocks(all[..w * index], w, index))
    {
      Nonlinear.Distribute(w, index, 1);
      Nonlinear.MulLe(w, index + 1, n);
      var begin := offset + w * index;
      var name := EncodeLoop(raw[begin..begin + w]);
      NextBlock(all, w, index);
      SliceSlice(raw, offset, offset + w * n, w * index, w * index + w);
      names := names + [name];
    }
    assert all[..w * n] == all;
  }

  lemma NoBlocks(b: Bytes, w: nat)
    requires b == []
    ensures w * 0 == 0 && Blocks(b, w, 0) == []
  {
  }

  lemma NextBlock(b: Bytes, w: nat, i: nat)
    requires 0 <= w * i && w * (i + 1) == w * i + w <= |b|
    ensures Blocks(b[..w * (i + 1)], w, i + 1) == Blocks(b[..w * i], w, i) + [b[w * i..w * i + w]]
  {
    var c := b[..w * (i + 1)];
    assert c[..|c| - w] == b[..w * i] && c[|c| - w..] == b[w * i..w * i + w];
  }

  /** Every index is below the number of keys. */
  predicate InRange(program: Octet, accounts: Bytes, keyCount: nat)
  {
    program < keyCount && forall i :: 0 <= i < |accounts| ==> accounts[i] < keyCount
  }

  /** The length field at the cursor counts the bytes v that follow it, up to `end`. */
  ghost predicate VectorAt(wire: Bytes, start: nat, v: Bytes, end: nat)
  {
    var count := Shortvec(wire, start);
    && count.Some? && count.value.0 == |v| && count.value.1 + |v| == end <= |wire|
    && wire[count.value.1..end] == v
  }

  lemma VectorUnique(wire: Bytes, start: nat, v: Bytes, end: nat)
    requires VectorAt(wire, start, v, end)
    ensures forall w, next :: VectorAt(wire, start, w, next) ==> w == v && next == end
  {
    hide Shortvec;
  }

  /** What stands at the cursor: the program index, the account indices after the first length field, the
      data after the second, up to `end`. */
  ghost predicate InstructionAt(wire: Bytes, start: nat, program: Octet, accounts: Bytes, data: Bytes, end: nat)
  {
    && start < |wire| && wire[start] == program
    && exists mid :: VectorAt(wire, start + 1, accounts, mid) && VectorAt(wire, mid, data, end)
  }

  lemma VectorPositions(wire: Bytes, start: nat)
    requires start <= |wire|
    ensures var t := TakeVector(Rest(wire, start));
      && (t.Some? ==>
            && |t.value.2| <= |wire| && Rest(wire, |wire| - |t.value.2|) == t.value.2
            && VectorAt(wire, start, t.value.1, |wire| - |t.value.2|))
      && (t.None? ==> forall v, end :: !VectorAt(wire, start, v, end))
  {
    hide TakeLength, LengthValue;
    var count := Shortvec(wire, start);
    if count.Some? {
      ShortvecRest(wire, start);
      var (n, begin) := count.value;
      if begin + n <= |wire| { RestSplit(wire, begin, n); }
    }
  }

  lemma InstructionPositions(wire: Bytes, start: nat, keyCount: nat)
    requires start <= |wire|
    ensures var t := TakeInstruction(Rest(wire, start), keyCount);
      && (t.Some? ==>
            && |t.value.1| <= |wire|
            && InstructionAt(wire, start, t.value.0.program, t.value.0.accounts, t.value.0.data, |wire| - |t.value.1|)
            && InRange(t.value.0.program, t.value.0.accounts, keyCount))
      && (t.None? ==>
            forall program, accounts, data, end ::
              InstructionAt(wire, start, program, accounts, data, end) ==> !InRange(program, accounts, keyCount))
  {
    hide TakeVector, VectorAt;
    if start < |wire| {
      assert Rest(wire, start)[1..] == Rest(wire, start + 1);
      VectorPositions(wire, start + 1);
      var accounts := TakeVector(Rest(wire, start + 1));
      if accounts.Some? {
        var mid := |wire| - |accounts.value.2|;
        VectorUnique(wire, start + 1, accounts.value.1, mid);
        VectorPositions(wire, mid);
        var data := TakeVector(Rest(wire, mid));
        if data.Some? { VectorUnique(wire, mid, data.value.1, |wire| - |data.value.2|); }
      }
    }
  }

  method ReadInstruction(wire: Bytes, start: nat, keys: seq<string>) returns (r: Option<(ParsedInstruction, nat)>)
    requires start <= |wire|
    ensures var t := TakeInstruction(Rest(wire, start), |keys|);
      && (r.None? <==> t.None?)
      && (r.Some? ==>
            && InstructionOk(t.value.0, |keys|) && r.value.0 == ViewInstruction(t.value.0, keys)
            && start < r.value.1 <= |wire| && Rest(wire, r.value.1) == t.value.1)
  {
    hide TakeLength, LengthValue, ValidLength, Shortvec;
    var offset := start;
    if offset >= |wire| { return None; }
    var program := wire[offset];
    offset := offset + 1;
    assert Rest(wire, start)[1..] == Rest(wire, offset);
    var accounts, next := ParseVector(wire, offset);
    if accounts.None? { return None; }
    var data, end := ParseVector(wire, next);
    if data.None? { return None; }
    var accountIndices := accounts.value;
    if !InRange(program, accountIndices, |keys|) { return None; }
    TakeInstructionSound(Rest(wire, start), |keys|);
    r := Some((ParsedInstruction(keys[program], program,
      seq(|accountIndices|, i requires 0 <= i < |accountIndices| => keys[accountIndices[i]]),
      accountIndices, data.value), end));
  }

  /** One compiled instruction at the cursor: reported exactly when the bytes there are one with every
      index in range. */
  method ParseInstruction(wire: Bytes, start: nat, keys: seq<string>) returns (r: Option<(ParsedInstruction, nat)>)
    requires start <= |wire|
    ensures var t := TakeInstruction(Rest(wire, start), |keys|);
      && (r.None? <==> t.None?)
      && (r.Some? ==>
            && InstructionOk(t.value.0, |keys|) && r.value.0 == ViewInstruction(t.value.0, keys)
            && start < r.value.1 <= |wire| && Rest(wire, r.value.1) == t.value.1)
    ensures r.Some? ==>
      var (ix, end) := r.value;
      && InstructionAt(wire, start, ix.programIndex, ix.accountIndices, ix.data, end)
      && InRange(ix.programIndex, ix.accountIndices, |keys|)
    ensures r.None? ==>
      forall program, accounts, data, end ::
        InstructionAt(wire, start, program, accounts, data, end) ==> !InRange(program, accounts, |keys|)
  {
    hide TakeInstruction, InstructionOk, InstructionAt, InRange;
    InstructionPositions(wire, start, |keys|);
    r := ReadInstruction(wire, start, keys);
  }

  method ParseVector(wire: Bytes, start: nat) returns (r: Option<Bytes>, next: nat)
    requires start <= |wire|
    ensures var t := TakeVector(Rest(wire, start));
      && (r.None? <==> t.None?)
      && (r.Some? ==> r.value == t.value.1 && start < next <= |wire| && Rest(wire, next) == t.value.2)
  {
    hide TakeLength, LengthValue;
    next := start;
    var count := ReadShortvec(wire, start);
    if count.None? { return None, start; }
    ShortvecRest(wire, start);
    var (n, begin) := count.value;
    if begin + n > |wire| { return None, start; }
    next := begin + n;
    r := Some(wire[begin..next]);
    RestSplit(wire, begin, n);
  }

  lemma RestSplit(wire: Bytes, begin: nat, n: nat)
    requires begin + n <= |wire|
    ensures Rest(wire, begin)[..n] == wire[begin..begin + n] && Rest(wire, begin)[n..] == Rest(wire, begin + n)
  {
  }

  // ------------------------------------------------------------------ all instructions

  function PrependAll(ixs: seq<Instruction>, t: Option<(seq<Instruction>, Bytes)>): Option<(seq<Instruction>, Bytes)>
  {
    if t.None? then None else Some((ixs + t.value.0, t.value.1))
  }

  lemma PrependAllSnoc(ixs: seq<Instruction>, b: Bytes, n: nat, keyCount: nat)
    requires n > 0
    ensures var first := TakeInstruction(b, keyCount);
      PrependAll(ixs, TakeAll(b, n, keyCount))
      == if first.None? then None else PrependAll(ixs + [first.value.0], TakeAll(first.value.1, n - 1, keyCount))
  {
    hide TakeInstruction;
    var first := TakeInstruction(b, keyCount);
    if first.Some? {
      var others := TakeAll(first.value.1, n - 1, keyCount);
      if others.Some? {
        assert ixs + ([first.value.0] + others.value.0) == (ixs + [first.value.0]) + others.value.0;
      }
    }
  }

  lemma PrependNone(t: Option<(seq<Instruction>, Bytes)>)
    ensures PrependAll([], t) == t
  {
    if t.Some? { assert [] + t.value.0 == t.value.0; }
  }

  lemma TakeNone(b: Bytes, ixs: seq<Instruction>, keyCount: nat)
    ensures PrependAll(ixs, TakeAll(b, 0, keyCount)) == Some((ixs, b))
  {
    assert ixs + [] == ixs;
  }

  method ParseInstructions(wire: Bytes, start: nat, count: nat, keys: seq<string>)
    returns (r: Option<(seq<ParsedInstruction>, nat)>)
    requires start <= |wire|
    ensures var t := TakeAll(Rest(wire, start), count, |keys|);
      && (r.None? <==> t.None?)
      && (r.Some? ==>
            && (forall i :: 0 <= i < |t.value.0| ==> InstructionOk(t.value.0[i], |keys|))
            && r.value.0 == ViewAll(t.value.0, keys)
            && r.value.1 <= |wire| && Rest(wire, r.value.1) == t.value.1)
  {
    hide TakeAll, TakeInstruction, InstructionOk, ViewInstruction, PrependAll;
    var offset: nat, instructions := start, [];
    ghost var ixs: seq<Instruction> := [];
    ghost var t := TakeAll(Rest(wire, start), count, |keys|);
    PrependNone(t);
    for i := 0 to count
      invariant offset <= |wire| && |ixs| == i
      invariant t == PrependAll(ixs, TakeAll(Rest(wire, offset), count - i, |keys|))
      invariant forall j :: 0 <= j < |ixs| ==> InstructionOk(ixs[j], |keys|)
      invariant instructions == ViewAll(ixs, keys)
    {
      PrependAllSnoc(ixs, Rest(wire, offset), count - i, |keys|);
      ghost var first := TakeInstruction(Rest(wire, offset), |keys|);
      var parsed := ParseInstruction(wire, offset, keys);
      if parsed.None? { return None; }
      instructions := instructions + [parsed.value.0];
      ixs := ixs + [first.value.0];
      offset := parsed.value.1;
    }
    TakeNone(Rest(wire, offset), ixs, |keys|);
    r := Some((instructions, offset));
  }

  // ------------------------------------------------------------------ the whole transaction

  ghost function Report(tx: Option<Transaction>): Option<Parsed>
    requires tx.Some? ==> WellFormed(tx.value)
  {
    if tx.None? then None else Some(View(tx.value))
  }

  lemma AcceptedIsWellFormed(wire: Bytes)
    ensures TakeTransaction(wire).Some? ==> WellFormed(TakeTransaction(wire).value)
  {
    hide TakeTransaction, WellFormed;
    if TakeTransaction(wire).Some? { ReadThenWrite(wire); }
  }

  /** Keys, blockhash and instructions. */
  method ParseBody(wire: Bytes, start: nat, header: Bytes) returns (r: Option<(seq<string>, seq<ParsedInstruction>)>)
    requires start <= |wire| && |header| == 3
    ensures var t := TakeBody(Rest(wire, start), header);
      && (r.None? <==> t.None?)
      && (r.Some? ==>
            && r.value.0 == Names(t.value.1)
            && (forall i :: 0 <= i < |t.value.4| ==> InstructionOk(t.value.4[i], |t.value.1|))
            && r.value.1 == ViewAll(t.value.4, Names(t.value.1)))
  {
    hide TakeLength, LengthValue, TakeAll, InstructionOk, ViewAll, Blocks, Names, Shortvec, Rest;
    var keyCount := ReadShortvec(wire, start);
    if keyCount.None? { ShortvecNone(wire, start); return None; }
    ShortvecRest(wire, start);
    var (k, offset) := keyCount.value;
    RestLength(wire, offset);
    var keyEnd := offset + 32 * k;
    if keyEnd + 32 > |wire| { return None; }
    var keys := NameBlocks(wire, offset, 32, k);
    NamesLength(wire[offset..keyEnd], 32, k);
    if header[1] > header[0] || header[2] > k - header[0] { return None; }
    RestSplit(wire, offset, 32 * k);
    RestSplit(wire, offset, 32 * k + 32);
    var parsed := ParseCompiled(wire, keyEnd + 32, keys);
    if parsed.None? { return None; }
    r := Some((keys, parsed.value));
  }

  /** The instruction count, that many instructions, and nothing after them. */
  method ParseCompiled(wire: Bytes, start: nat, keys: seq<string>) returns (r: Option<seq<ParsedInstruction>>)
    requires start <= |wire|
    ensures var count := TakeLength(Rest(wire, start), 4);
      && (count.None? ==> r.None?)
      && (count.Some? ==>
            var t := TakeAll(count.value.1, LengthValue(count.value.0), |keys|);
            && (r.None? <==> t.None? || t.value.1 != [])
            && (r.Some? ==>
                  && (forall i :: 0 <= i < |t.value.0| ==> InstructionOk(t.value.0[i], |keys|))
                  && r.value == ViewAll(t.value.0, keys)))
  {
    hide TakeLength, LengthValue, TakeAll, InstructionOk, ViewAll, Shortvec, Rest;
    var count := ReadShortvec(wire, start);
    if count.None? { ShortvecNone(wire, start); return None; }
    ShortvecRest(wire, start);
    var parsed := ParseInstructions(wire, count.value.1, count.value.0, keys);
    if parsed.None? { return None; }
    RestEmpty(wire, parsed.value.1);
    if parsed.value.1 != |wire| { return None; }
    r := Some(parsed.value.0);
  }

  lemma ShortvecNone(raw: Bytes, offset: nat)
    requires Shortvec(raw, offset).None?
    ensures TakeLength(Rest(raw, offset), 4).None?
  {
  }

  lemma NamesLength(b: Bytes, w: nat, n: nat)
    requires |b| == w * n
    ensures |Names(Blocks(b, w, n))| == n
  {
  }

  lemma RestEmpty(raw: Bytes, offset: nat)
    requires offset <= |raw|
    ensures Rest(raw, offset) == [] <==> offset == |raw|
  {
  }

  /** `parse_legacy_transaction`: None where the original fails, otherwise the report of the
      one transaction whose serialisation the wire is. */
  method ParseLegacyTransaction(wire: Bytes) returns (r: Option<Parsed>)
    ensures TakeTransaction(wire).Some? ==> WellFormed(TakeTransaction(wire).value)
    ensures r == Report(TakeTransaction(wire))
  {
    hide TakeLength, LengthValue, TakeBody, WellFormed, MessageBytes, ViewAll, Blocks, Names, Shortvec, Rest;
    AcceptedIsWellFormed(wire);
    WholeRest(wire);
    var count := ReadShortvec(wire, 0);
    if count.None? { ShortvecNone(wire, 0); return None; }
    ShortvecRest(wire, 0);
    var (n, begin) := count.value;
    RestLength(wire, begin);
    var signatureEnd := begin + 64 * n;
    if n < 1 || signatureEnd > |wire| { return None; }
    var signatures := NameBlocks(wire, begin, 64, n);
    RestSplit(wire, begin, 64 * n);
    var offset: nat := signatureEnd;
    if offset >= |wire| { return None; }
    SameByte(wire, begin, 64 * n);
    if wire[offset] >= 128 { return None; }
    if offset + 3 > |wire| { return None; }
    var header := wire[offset..offset + 3];
    offset := offset + 3;
    if header[0] != n { return None; }
    var body := ParseBody(wire, offset, header);
    SameHeader(wire, begin, n);
    if body.None? { return None; }
    r := Some(Parsed(signatures, header, body.value.0, body.value.1, wire[signatureEnd..]));
    MessageIs(wire);
    SameSuffix(wire, begin, 64 * n);
  }

  lemma WholeRest(raw: Bytes)
    ensures Rest(raw, 0) == raw
  {
  }

  lemma RestLength(raw: Bytes, offset: nat)
    requires offset <= |raw|
    ensures |Rest(raw, offset)| == |raw| - offset
  {
  }

  lemma SameByte(raw: Bytes, begin: nat, k: nat)
    requires begin + k < |raw|
    ensures |Rest(raw, begin)| == |raw| - begin && Rest(raw, begin)[k] == raw[begin + k]
  {
  }

  lemma SameSuffix(raw: Bytes, begin: nat, k: nat)
    requires begin + k <= |raw|
    ensures |Rest(raw, begin)| == |raw| - begin && Rest(raw, begin)[k..] == raw[begin + k..]
  {
  }

  lemma SameHeader(wire: Bytes, begin: nat, n: nat)
    requires begin + 64 * n + 3 <= |wire|
    ensures var sb := Rest(wire, begin);
      && sb[64 * n] == wire[begin + 64 * n] && sb[64 * n..64 * n + 3] == wire[begin + 64 * n..begin + 64 * n + 3]
      && sb[64 * n + 3..] == Rest(wire, begin + 64 * n + 3)
  {
  }

  lemma MessageIs(wire: Bytes)
    requires TakeTransaction(wire).Some?
    ensures TakeLength(wire, 4).Some?
    ensures var (se, sb) := TakeLength(wire, 4).value; var n := LengthValue(se);
      64 * n <= |sb| && MessageBytes(TakeTransaction(wire).value) == sb[64 * n..]
  {
    hide TakeLength, TakeBody, MessageBytes, LengthValue, ValidLength, Blocks, InstructionOk;
    ReadThenWrite(wire);
    TakeLengthSound(wire, 4);
    var (se, sb) := TakeLength(wire, 4).value;
    var tx := TakeTransaction(wire).value;
    FlattenLength(tx.signatures, 64);
    assert wire[|se|..] == sb;
    assert wire[|se|..] == Flatten(tx.signatures) + MessageBytes(tx);
  }
}
