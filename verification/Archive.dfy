/** From finalized transaction wires to the reconstructed program: parse every wire, select the
    loader writes to the buffer, test their accounts and signers, and replay them. */
module Archive {
  import opened Options
  import opened Base58
  import opened Wire
  import opened WireParser
  import opened Upload
  import opened Replay

  // ------------------------------------------------------------------- roles of a key

  /** `list.index`: the first occurrence. */
  function IndexOf(keys: seq<string>, key: string): (i: Option<nat>)
    ensures i.None? <==> key !in keys
    ensures i.Some? ==> i.value < |keys| && keys[i.value] == key && key !in keys[..i.value]
  {
    if keys == [] then None
    else if keys[0] == key then Some(0)
    else
      var rest := IndexOf(keys[1..], key);
      if rest.None? then None
      else
        assert keys[..rest.value + 1] == [keys[0]] + keys[1..][..rest.value];
        var i: nat := rest.value + 1;
        Some(i)
  }

  /** `key_is_signer`. */
  predicate KeyIsSigner(message: Parsed, key: string)
  {
    var i := IndexOf(message.keys, key);
    |message.header| == 3 && i.Some? && i.value < message.header[0]
  }

  /** `key_is_writable`: not among the read-only tails of the signed and the unsigned keys. */
  predicate KeyIsWritable(message: Parsed, key: string)
  {
    var i := IndexOf(message.keys, key);
    |message.header| == 3 && i.Some? &&
    if i.value < message.header[0] then i.value + message.header[1] < message.header[0]
    else i.value + message.header[2] < |message.keys|
  }

  // --------------------------------------------------------------- selecting the writes

  datatype Event = Event(message: Parsed, instruction: ParsedInstruction)

  /** A loader instruction on the buffer whose variant is Write. */
  predicate IsWrite(ix: ParsedInstruction, loader: string, buffer: string)
  {
    ix.program == loader && buffer in ix.accounts && |ix.data| >= 4 && FromLittleEndian(ix.data[..4]) == 1
  }

  function Selected(message: Parsed, k: nat, loader: string, buffer: string): seq<Event>
    requires k <= |message.instructions|
  {
    if k == 0 then []
    else
      var ix := message.instructions[k - 1];
      Selected(message, k - 1, loader, buffer) + if IsWrite(ix, loader, buffer) then [Event(message, ix)] else []
  }

  function AllSelected(messages: seq<Parsed>, loader: string, buffer: string): seq<Event>
  {
    if messages == [] then []
    else
      var last := messages[|messages| - 1];
      AllSelected(messages[..|messages| - 1], loader, buffer) + Selected(last, |last.instructions|, loader, buffer)
  }

  /** Accounts exactly buffer and authority, signed by the authority, the buffer writable. */
  predicate EventOk(e: Event, buffer: string, authority: string)
  {
    && e.instruction.accounts == [buffer, authority]
    && KeyIsSigner(e.message, authority) && KeyIsWritable(e.message, buffer)
  }

  function Datas(events: seq<Event>): (d: seq<Bytes>)
    ensures |d| == |events|
  {
    seq(|events|, i requires 0 <= i < |events| => events[i].instruction.data)
  }

  // ----------------------------------------------------------------- the whole check

  /** What the parser reports on a wire. */
  ghost function ParsedOf(wire: Bytes): Option<Parsed>
  {
    AcceptedIsWellFormed(wire);
    Report(TakeTransaction(wire))
  }

  ghost predicate AllParse(wires: seq<Bytes>, messages: seq<Parsed>)
  {
    |messages| == |wires| && forall i :: 0 <= i < |wires| ==> ParsedOf(wires[i]) == Some(messages[i])
  }

  ghost predicate Reconstructed(sbf: Bytes, wires: seq<Bytes>, loader: string, buffer: string, authority: string,
      repeats: int)
  {
    exists messages: seq<Parsed> ::
      AllParse(wires, messages) && Replayed(sbf, messages, loader, buffer, authority, repeats)
  }

  ghost predicate Replayed(sbf: Bytes, messages: seq<Parsed>, loader: string, buffer: string, authority: string,
      repeats: int)
  {
    var events := AllSelected(messages, loader, buffer);
    && (forall e :: e in events ==> EventOk(e, buffer, authority))
    && Accepts(sbf, Datas(events), repeats)
  }

  lemma ParsesOnce(wires: seq<Bytes>, a: seq<Parsed>, b: seq<Parsed>)
    requires AllParse(wires, a) && AllParse(wires, b)
    ensures a == b
  {
    hide ParsedOf;
    forall i | 0 <= i < |wires| ensures a[i] == b[i] { assert ParsedOf(wires[i]) == Some(a[i]); }
  }

  method ParseWires(wires: seq<Bytes>) returns (messages: Option<seq<Parsed>>)
    ensures messages.Some? ==> AllParse(wires, messages.value)
    ensures messages.None? ==> exists i :: 0 <= i < |wires| && ParsedOf(wires[i]).None?
  {
    hide TakeTransaction, View, WellFormed;
    var parsed: seq<Parsed> := [];
    for i := 0 to |wires|
      invariant |parsed| == i && forall j :: 0 <= j < i ==> ParsedOf(wires[j]) == Some(parsed[j])
    {
      var r := ParseLegacyTransaction(wires[i]);
      if r.None? {
        assert ParsedOf(wires[i]).None?;
        return None;
      }
      parsed := parsed + [r.value];
    }
    messages := Some(parsed);
  }

  method SelectWrites(messages: seq<Parsed>, loader: string, buffer: string) returns (events: seq<Event>)
    ensures events == AllSelected(messages, loader, buffer)
  {
    hide IsWrite;
    events := [];
    for i := 0 to |messages|
      invariant events == AllSelected(messages[..i], loader, buffer)
    {
      ghost var before := events;
      var message := messages[i];
      for k := 0 to |message.instructions|
        invariant events == before + Selected(message, k, loader, buffer)
      {
        if IsWrite(message.instructions[k], loader, buffer) {
          events := events + [Event(message, message.instructions[k])];
        }
      }
      assert messages[..i + 1][..i] == messages[..i];
    }
    assert messages[..|messages|] == messages;
  }

  /** The reconstruction, from wires: true exactly when every wire parses, every selected write has
      the right accounts and signers, and the replay accepts. */
  method ReconstructDeployed(sbf: Bytes, wires: seq<Bytes>, loader: string, buffer: string, authority: string,
      repeats: nat)
    returns (ok: bool)
    ensures ok <==> Reconstructed(sbf, wires, loader, buffer, authority, repeats)
  {
    hide ParsedOf, AllSelected, EventOk, Accepts;
    var messages := ParseWires(wires);
    if messages.None? { return false; }
    var events := SelectWrites(messages.value, loader, buffer);
    var datas: seq<Bytes> := [];
    ok := true;
    for i := 0 to |events|
      invariant datas == Datas(events)[..i]
      invariant ok <==> forall j :: 0 <= j < i ==> EventOk(events[j], buffer, authority)
    {
      ok := ok && EventOk(events[i], buffer, authority);
      datas := datas + [events[i].instruction.data];
    }
    assert datas == Datas(events);
    if ok {
      ok := Reconstructs(sbf, datas, repeats);
    }
    Unique(sbf, wires, messages.value, loader, buffer, authority, repeats);
  }

  lemma Unique(sbf: Bytes, wires: seq<Bytes>, messages: seq<Parsed>, loader: string, buffer: string,
      authority: string, repeats: int)
    requires AllParse(wires, messages)
    ensures Reconstructed(sbf, wires, loader, buffer, authority, repeats)
       <==> Replayed(sbf, messages, loader, buffer, authority, repeats)
  {
    hide Replayed, AllParse;
    if Reconstructed(sbf, wires, loader, buffer, authority, repeats) {
      var other :| AllParse(wires, other) && Replayed(sbf, other, loader, buffer, authority, repeats);
      ParsesOnce(wires, messages, other);
    }
  }

  // ------------------------------------------------------------- an upload is accepted

  lemma NamesDiffer(a: Bytes, b: Bytes)
    ensures Encode(a) == Encode(b) <==> a == b
  {
    hide Encode;
    DecodeEncode(a);
    DecodeEncode(b);
  }

  lemma {:induction false} FirstIndex(keys: seq<string>, key: string, i: nat)
    requires i < |keys| && keys[i] == key && forall j :: 0 <= j < i ==> keys[j] != key
    ensures IndexOf(keys, key) == Some(i)
  {
    if i > 0 { FirstIndex(keys[1..], key, i - 1); }
  }

  /** One instruction, by the loader on buffer and authority, carrying the write; the authority signs
      and the buffer is writable. */
  ghost predicate ReportOf(message: Parsed, roles: Roles, w: Write)
  {
    && |message.instructions| == 1
    && message.instructions[0].program == Encode(roles.loader)
    && message.instructions[0].data == WriteData(w)
    && EventOk(Event(message, message.instructions[0]), Encode(roles.buffer), Encode(roles.authority))
  }

  /** What the archive reads off a write transaction is the write that was built. */
  lemma WriteReported(roles: Roles, blockhash: Bytes, w: Write)
    requires roles.Sized() && |blockhash| == 32 && 16 + |w.payload| < Pow128(4) && w.offset < Pow256(4)
    requires roles.buffer != roles.payer && roles.buffer != roles.authority
    ensures var report := ParsedOf(TransactionBytes(WriteTransaction(roles, blockhash, w)));
      && report.Some? && ReportOf(report.value, roles, w)
      && DecodeWrite(report.value.instructions[0].data) == Some(w)
  {
    hide Encode, WriteData, Canonical, WellFormed, TransactionBytes, TakeTransaction, MessageBytes, InstructionOk;
    hide IndexOf, DecodeWrite, Pow128, Pow256;
    PowersCompare();
    DecodeWriteData(w);
    var tx := WriteTransaction(roles, blockhash, w);
    WriteTransactionOk(roles, blockhash, w);
    WriteThenRead(tx);
    OneReported(tx);
    var message := View(tx);
    var buffer, authority := Encode(roles.buffer), Encode(roles.authority);
    NamesDiffer(roles.payer, roles.buffer);
    NamesDiffer(roles.payer, roles.authority);
    NamesDiffer(roles.authority, roles.buffer);
    FirstIndex(message.keys, authority, if roles.Shared() then 0 else 1);
    FirstIndex(message.keys, buffer, if roles.Shared() then 1 else 2);
  }

  lemma PowersCompare()
    ensures Pow128(4) <= Pow256(8)
  {
    hide Pow128, Pow256;
    assert Pow128(4) == 0x1000_0000 by {
      Pow128Step(4);
      Pow128Step(3);
      Pow128Step(2);
      Pow128Step(1);
    }
    Pow256Steps();
  }

  lemma Pow256Steps()
    ensures Pow256(4) == 0x1_0000_0000 && Pow256(8) >= Pow256(4)
  {
    assert Pow256(8) == 0x1_0000_0000 * Pow256(4);
  }

  lemma OneReported(tx: Transaction)
    requires WellFormed(tx) && |tx.instructions| == 1 && |tx.instructions[0].accounts| == 2
    ensures var ix, m := tx.instructions[0], View(tx);
      && m.header == tx.header && m.keys == Names(tx.keys) && |m.instructions| == 1
      && ix.program < |tx.keys| && ix.accounts[0] < |tx.keys| && ix.accounts[1] < |tx.keys|
      && m.instructions[0].program == Encode(tx.keys[ix.program]) && m.instructions[0].data == ix.data
      && m.instructions[0].accounts == [Encode(tx.keys[ix.accounts[0]]), Encode(tx.keys[ix.accounts[1]])]
  {
    hide Encode, MessageBytes;
  }

  /** The wires of a history of writes, one transaction each. */
  ghost function UploadWires(roles: Roles, hashes: seq<Bytes>, history: seq<Write>): (wires: seq<Bytes>)
    requires |hashes| == |history|
    ensures |wires| == |history|
  {
    seq(|history|, i requires 0 <= i < |history| => TransactionBytes(WriteTransaction(roles, hashes[i], history[i])))
  }

  ghost predicate Reports(messages: seq<Parsed>, roles: Roles, history: seq<Write>)
  {
    |messages| == |history| && forall i :: 0 <= i < |history| ==> ReportOf(messages[i], roles, history[i])
  }

  lemma OneSelected(message: Parsed, roles: Roles, w: Write)
    requires ReportOf(message, roles, w)
    ensures Selected(message, |message.instructions|, Encode(roles.loader), Encode(roles.buffer))
         == [Event(message, message.instructions[0])]
  {
    hide Encode, KeyIsSigner, KeyIsWritable, WriteData;
    WriteVariant(w);
    var ix := message.instructions[0];
    assert IsWrite(ix, Encode(roles.loader), Encode(roles.buffer));
    assert Selected(message, 0, Encode(roles.loader), Encode(roles.buffer)) == [];
  }

  lemma WriteVariant(w: Write)
    ensures |WriteData(w)| >= 4 && FromLittleEndian(WriteData(w)[..4]) == 1
  {
    hide LittleEndian, FromLittleEndian, Pow256;
    assert WriteData(w)[..4] == LittleEndian(1, 4);
    OneFits();
    LittleEndianBack(1, 4);
  }

  lemma {:induction false} SelectedAll(messages: seq<Parsed>, roles: Roles, history: seq<Write>)
    requires Reports(messages, roles, history)
    ensures var events := AllSelected(messages, Encode(roles.loader), Encode(roles.buffer));
      && Datas(events) == Encoded(history)
      && (forall e :: e in events ==> EventOk(e, Encode(roles.buffer), Encode(roles.authority)))
  {
    hide Encode, EventOk, WriteData, IsWrite;
    if messages != [] {
      var n := |messages| - 1;
      SelectedAll(messages[..n], roles, history[..n]);
      OneSelected(messages[n], roles, history[n]);
      var before := AllSelected(messages[..n], Encode(roles.loader), Encode(roles.buffer));
      assert Datas(before + [Event(messages[n], messages[n].instructions[0])])
          == Datas(before) + [messages[n].instructions[0].data];
      assert Encoded(history) == Encoded(history[..n]) + [WriteData(history[n])];
    }
  }

  lemma SmallPayload(shared: bool, n: nat)
    requires Fits(shared, n)
    ensures 16 + n < Pow128(4)
  {
    hide Canonical;
    Pow128Step(4);
    Pow128Step(3);
    Pow128Step(2);
    Pow128Step(1);
  }

  /** End to end: the packet-safe writes of a plan, each in its own transaction, landed in any order
      with any exact retries, are reconstructed from their wires. */
  lemma UploadReconstructed(roles: Roles, hashes: seq<Bytes>, plan: seq<Write>, sbf: Bytes, history: seq<Write>)
    requires roles.Sized() && roles.buffer != roles.payer && roles.buffer != roles.authority
    requires |hashes| == |history| && forall i :: 0 <= i < |hashes| ==> |hashes[i]| == 32
    requires Tiling(plan, sbf) && |sbf| <= MAX_OFFSET && PacketSafe(plan, roles.Shared())
    requires (forall w :: w in history ==> w in plan) && (forall w :: w in plan ==> w in history)
    ensures Reconstructed(sbf, UploadWires(roles, hashes, history), Encode(roles.loader), Encode(roles.buffer),
                          Encode(roles.authority), |history| - |plan|)
  {
    hide Encode, ParsedOf, EventOk, Fits, Tiling, Accepts, AllSelected, TransactionBytes, WriteTransaction;
    hide WriteData, Encoded, DecodeWrite, Pow256, ReportOf;
    TilingEnds(plan, sbf);
    Pow256Steps();
    var wires := UploadWires(roles, hashes, history);
    forall i | 0 <= i < |history|
      ensures ParsedOf(wires[i]).Some? && ReportOf(ParsedOf(wires[i]).value, roles, history[i])
    {
      assert history[i] in plan;
      var j :| 0 <= j < |plan| && plan[j] == history[i];
      SmallPayload(roles.Shared(), |history[i].payload|);
      WriteReported(roles, hashes[i], history[i]);
    }
    var messages := seq(|history|, i requires 0 <= i < |history| => ParsedOf(wires[i]).value);
    SelectedAll(messages, roles, history);
    AnyOrderAccepted(plan, sbf, history);
    assert AllParse(wires, messages);
    var loader, buffer, authority := Encode(roles.loader), Encode(roles.buffer), Encode(roles.authority);
    assert Replayed(sbf, messages, loader, buffer, authority, |history| - |plan|);
  }
}
