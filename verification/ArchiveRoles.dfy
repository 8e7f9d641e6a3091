/** The reconstruction, stated on the transactions themselves: which instructions count as writes,
    where their accounts must stand among the keys, and which wires do not matter. */
module ArchiveRoles {
  import opened Options
  import FiniteSets
  import opened Base58
  import opened Wire
  import opened WireParser
  import opened Upload
  import opened Replay
  import opened Archive

  // ------------------------------------------------------------------- roles of the keys

  ghost predicate DistinctKeys(tx: Transaction)
  {
    forall i, j :: 0 <= i < j < |tx.keys| ==> tx.keys[i] != tx.keys[j]
  }

  ghost predicate WritableAt(tx: Transaction, i: nat)
    requires WellFormed(tx) && i < |tx.keys|
  {
    KeyIsWritable(View(tx), Encode(tx.keys[i]))
  }

  ghost predicate SignerAt(tx: Transaction, i: nat)
    requires WellFormed(tx) && i < |tx.keys|
  {
    KeyIsSigner(View(tx), Encode(tx.keys[i]))
  }

  lemma {:induction false} IndexIsFirst(keys: seq<Bytes>, key: Bytes, i: nat)
    requires i < |keys| && keys[i] == key && key !in keys[..i]
    ensures IndexOf(Names(keys), Encode(key)) == Some(i)
  {
    hide Encode;
    forall j | 0 <= j < i ensures Names(keys)[j] != Encode(key) {
      assert keys[..i][j] == keys[j];
      NamesDiffer(keys[j], key);
    }
    FirstIndex(Names(keys), Encode(key), i);
  }

  /** Under distinct keys the tests only look at the position of the key. */
  lemma RolesByPosition(tx: Transaction, i: nat)
    requires WellFormed(tx) && DistinctKeys(tx) && i < |tx.keys|
    ensures var required, signed, unsigned := tx.header[0], tx.header[1], tx.header[2];
      && (SignerAt(tx, i) <==> i < required)
      && (!WritableAt(tx, i) <==> required - signed <= i < required || |tx.keys| - unsigned <= i)
  {
    hide Encode, IndexOf, ViewAll, MessageBytes, InstructionOk;
    IndexIsFirst(tx.keys, tx.keys[i], i);
  }

  /** The positions from a up to b. */
  ghost function Span(a: int, b: int): (s: set<int>)
    requires a <= b
    ensures |s| == b - a && forall i :: i in s <==> a <= i < b
    decreases b - a
  {
    if a == b then {} else Span(a, b - 1) + {b - 1}
  }

  lemma HeaderSums(tx: Transaction)
    requires WellFormed(tx)
    ensures |tx.header| == 3 && tx.header[1] <= tx.header[0] && tx.header[0] + tx.header[2] <= |tx.keys|
  {
  }

  lemma SignedReadOnly(tx: Transaction)
    requires WellFormed(tx) && DistinctKeys(tx)
    ensures |set i: nat | i < tx.header[0] && !WritableAt(tx, i)| == tx.header[1]
  {
    hide WritableAt, SignerAt, WellFormed, DistinctKeys;
    HeaderSums(tx);
    var required: int, signed: int := tx.header[0], tx.header[1];
    forall i: nat | i < required ensures !WritableAt(tx, i) <==> required - signed <= i { RolesByPosition(tx, i); }
    assert (set i: nat | i < tx.header[0] && !WritableAt(tx, i)) == Span(required - signed, required);
  }

  lemma UnsignedReadOnly(tx: Transaction)
    requires WellFormed(tx) && DistinctKeys(tx)
    ensures |set i: nat | tx.header[0] <= i < |tx.keys| && !WritableAt(tx, i)| == tx.header[2]
  {
    hide WritableAt, SignerAt, WellFormed, DistinctKeys;
    HeaderSums(tx);
    var required: int, unsigned: int, n := tx.header[0], tx.header[2], |tx.keys|;
    forall i: nat | required <= i < n ensures !WritableAt(tx, i) <==> n - unsigned <= i { RolesByPosition(tx, i); }
    assert (set i: nat | tx.header[0] <= i < |tx.keys| && !WritableAt(tx, i)) == Span(n - unsigned, n);
  }

  lemma SignersCounted(tx: Transaction)
    requires WellFormed(tx) && DistinctKeys(tx)
    ensures |set i: nat | i < |tx.keys| && SignerAt(tx, i)| == tx.header[0]
  {
    hide WritableAt, SignerAt, WellFormed, DistinctKeys;
    HeaderSums(tx);
    var required: int := tx.header[0];
    forall i: nat | i < |tx.keys| ensures SignerAt(tx, i) <==> i < required { RolesByPosition(tx, i); }
    assert (set i: nat | i < |tx.keys| && SignerAt(tx, i)) == Span(0, required);
  }

  /** Exactly header[1] of the first header[0] keys and header[2] of the others are read-only. */
  lemma ReadOnlyCounted(tx: Transaction)
    requires WellFormed(tx) && DistinctKeys(tx)
    ensures |set i: nat | i < tx.header[0] && !WritableAt(tx, i)| == tx.header[1]
    ensures |set i: nat | tx.header[0] <= i < |tx.keys| && !WritableAt(tx, i)| == tx.header[2]
    ensures |set i: nat | i < |tx.keys| && SignerAt(tx, i)| == tx.header[0]
  {
    hide WritableAt, SignerAt, WellFormed, DistinctKeys;
    HeaderSums(tx);
    SignedReadOnly(tx);
    UnsignedReadOnly(tx);
    SignersCounted(tx);
  }

  /** Within the signed and within the unsigned keys, those before a writable key are writable. */
  lemma WritableFirst(tx: Transaction, i: nat, j: nat)
    requires WellFormed(tx) && DistinctKeys(tx) && i <= j < |tx.keys| && (i < tx.header[0] <==> j < tx.header[0])
    requires WritableAt(tx, j)
    ensures WritableAt(tx, i)
  {
    hide WritableAt, SignerAt;
    RolesByPosition(tx, i);
    RolesByPosition(tx, j);
  }

  /** The roles in a write transaction: the payer comes first and signs, buffer and payer are the writable
      keys, and authority and payer are the signers. */
  lemma WriteRoles(roles: Roles, blockhash: Bytes, w: Write, i: nat)
    requires roles.Sized() && |blockhash| == 32 && 16 + |w.payload| < Pow128(4)
    requires roles.buffer != roles.payer && roles.buffer != roles.authority
    requires roles.loader != roles.payer && roles.loader != roles.authority && roles.loader != roles.buffer
    requires i < |WriteTransaction(roles, blockhash, w).keys|
    ensures var tx := WriteTransaction(roles, blockhash, w);
      && WellFormed(tx) && tx.keys[0] == roles.payer
      && (set k | k in tx.keys) == {roles.payer, roles.authority, roles.buffer, roles.loader}
      && (WritableAt(tx, i) <==> tx.keys[i] == roles.payer || tx.keys[i] == roles.buffer)
      && (SignerAt(tx, i) <==> tx.keys[i] == roles.payer || tx.keys[i] == roles.authority)
  {
    hide WritableAt, SignerAt, WellFormed, WriteData, Canonical, Pow128;
    WriteTransactionOk(roles, blockhash, w);
    var tx := WriteTransaction(roles, blockhash, w);
    assert DistinctKeys(tx);
    HeaderSums(tx);
    RolesByPosition(tx, i);
  }

  // ------------------------------------------------------ writes, on transaction fields

  ghost predicate Named(tx: Transaction, i: nat, name: string) { i < |tx.keys| && Encode(tx.keys[i]) == name }

  /** A loader instruction that mentions the buffer and whose data starts with the little-endian 1. */
  ghost predicate LoaderWrite(tx: Transaction, ix: Instruction, loader: string, buffer: string)
  {
    && Named(tx, ix.program, loader)
    && (exists k :: 0 <= k < |ix.accounts| && Named(tx, ix.accounts[k], buffer))
    && |ix.data| >= 4 && ix.data[..4] == [1, 0, 0, 0]
  }

  /** Accounts buffer and authority; the authority among the signers; the first key of the buffer's name
      neither in the read-only tail of the signed keys nor in that of the others. */
  ghost predicate Placed(tx: Transaction, ix: Instruction, buffer: string, authority: string)
    requires |tx.header| == 3
  {
    && |ix.accounts| == 2 && Named(tx, ix.accounts[0], buffer) && Named(tx, ix.accounts[1], authority)
    && (exists q: nat :: q < tx.header[0] && Named(tx, q, authority))
    && (exists p: nat :: BufferKey(tx, p, buffer))
  }

  ghost predicate BufferKey(tx: Transaction, p: nat, buffer: string)
    requires |tx.header| == 3
  {
    && Named(tx, p, buffer) && (forall j: nat :: j < p ==> !Named(tx, j, buffer))
    && var required: int, signed: int, unsigned: int := tx.header[0], tx.header[1], tx.header[2];
      p < required - signed || required <= p < |tx.keys| - unsigned
  }

  lemma VariantOne(b: Bytes)
    requires |b| == 4
    ensures FromLittleEndian(b) == 1 <==> b == [1, 0, 0, 0]
  {
    assert FromLittleEndian(b) == b[0] + 256 * FromLittleEndian(b[1..]);
    assert FromLittleEndian(b[1..]) == b[1] + 256 * FromLittleEndian(b[2..]);
    assert FromLittleEndian(b[2..]) == b[2] + 256 * FromLittleEndian(b[3..]);
    assert FromLittleEndian(b[3..]) == b[3] + 256 * FromLittleEndian(b[4..]);
    assert b == [b[0], b[1], b[2], b[3]];
  }

  lemma ViewedInstruction(tx: Transaction, k: nat)
    requires WellFormed(tx) && k < |tx.instructions|
    ensures var m, ix := View(tx), tx.instructions[k];
      && m.header == tx.header && m.keys == Names(tx.keys) && k < |m.instructions|
      && InstructionOk(ix, |tx.keys|)
      && m.instructions[k].program == Encode(tx.keys[ix.program]) && m.instructions[k].data == ix.data
      && |m.instructions[k].accounts| == |ix.accounts|
      && (forall a :: 0 <= a < |ix.accounts| ==> m.instructions[k].accounts[a] == Encode(tx.keys[ix.accounts[a]]))
  {
    hide Encode, MessageBytes, ValidLength, LengthValue;
  }

  lemma WriteSelected(tx: Transaction, k: nat, loader: string, buffer: string)
    requires WellFormed(tx) && k < |tx.instructions|
    ensures IsWrite(View(tx).instructions[k], loader, buffer) <==> LoaderWrite(tx, tx.instructions[k], loader, buffer)
  {
    hide Encode, View, InstructionOk, WellFormed, FromLittleEndian;
    ViewedInstruction(tx, k);
    Fields(tx.instructions[k], |tx.keys|);
    var data := tx.instructions[k].data;
    if |data| >= 4 { VariantOne(data[..4]); }
  }

  lemma Fields(ix: Instruction, n: nat)
    requires InstructionOk(ix, n)
    ensures ix.program < n && forall i :: 0 <= i < |ix.accounts| ==> ix.accounts[i] < n
  {
    hide ValidLength, LengthValue;
  }

  /** What `list.index` finds, on the keys. */
  lemma IndexNamed(tx: Transaction, name: string)
    ensures var i := IndexOf(Names(tx.keys), name);
      && (i.None? <==> forall q: nat :: !Named(tx, q, name))
      && (i.Some? ==> Named(tx, i.value, name) && forall j: nat :: j < i.value ==> !Named(tx, j, name))
  {
    hide Encode, IndexOf;
    var names := Names(tx.keys);
    var i := IndexOf(names, name);
    if i.Some? {
      assert Named(tx, i.value, name);
      forall j: nat | j < i.value ensures !Named(tx, j, name) {
        assert names[..i.value][j] == names[j] == Encode(tx.keys[j]);
      }
    } else {
      forall q: nat ensures !Named(tx, q, name) {
        if q < |tx.keys| { assert names[q] in names; }
      }
    }
  }

  lemma SignerIs(tx: Transaction, name: string)
    requires WellFormed(tx)
    ensures KeyIsSigner(View(tx), name) <==> exists q: nat :: q < tx.header[0] && Named(tx, q, name)
  {
    hide Encode, IndexOf, ViewAll, MessageBytes, InstructionOk, Named;
    IndexNamed(tx, name);
  }

  lemma WritableIs(tx: Transaction, name: string)
    requires WellFormed(tx)
    ensures KeyIsWritable(View(tx), name) <==> exists p: nat :: BufferKey(tx, p, name)
  {
    hide Encode, IndexOf, ViewAll, MessageBytes, InstructionOk;
    IndexNamed(tx, name);
    var i := IndexOf(Names(tx.keys), name);
    if i.Some? {
      assert KeyIsWritable(View(tx), name) <==> BufferKey(tx, i.value, name);
      assert forall p: nat :: BufferKey(tx, p, name) ==> p == i.value;
    }
  }

  lemma WritePlaced(tx: Transaction, k: nat, buffer: string, authority: string)
    requires WellFormed(tx) && k < |tx.instructions|
    ensures EventOk(Event(View(tx), View(tx).instructions[k]), buffer, authority)
       <==> Placed(tx, tx.instructions[k], buffer, authority)
  {
    hide Encode, View, InstructionOk, WellFormed, KeyIsSigner, KeyIsWritable, BufferKey;
    ViewedInstruction(tx, k);
    Fields(tx.instructions[k], |tx.keys|);
    SignerIs(tx, authority);
    WritableIs(tx, buffer);
  }

  // ----------------------------------------------------------- the whole reconstruction

  /** The data of the writes among the first k instructions, in order. */
  ghost function WriteDatas(tx: Transaction, k: nat, loader: string, buffer: string): seq<Bytes>
    requires k <= |tx.instructions|
  {
    if k == 0 then []
    else
      var ix := tx.instructions[k - 1];
      WriteDatas(tx, k - 1, loader, buffer) + if LoaderWrite(tx, ix, loader, buffer) then [ix.data] else []
  }

  ghost function AllDatas(txs: seq<Transaction>, loader: string, buffer: string): seq<Bytes>
  {
    if txs == [] then []
    else
      var last := txs[|txs| - 1];
      AllDatas(txs[..|txs| - 1], loader, buffer) + WriteDatas(last, |last.instructions|, loader, buffer)
  }

  /** Every write among the first k instructions is placed. */
  ghost predicate PlacedTo(tx: Transaction, k: nat, loader: string, buffer: string, authority: string)
    requires k <= |tx.instructions| && |tx.header| == 3
  {
    forall j :: 0 <= j < k && LoaderWrite(tx, tx.instructions[j], loader, buffer)
      ==> Placed(tx, tx.instructions[j], buffer, authority)
  }

  ghost predicate AllPlaced(txs: seq<Transaction>, loader: string, buffer: string, authority: string)
  {
    forall i :: 0 <= i < |txs| ==>
      |txs[i].header| == 3 && PlacedTo(txs[i], |txs[i].instructions|, loader, buffer, authority)
  }

  ghost predicate EventsOk(events: seq<Event>, buffer: string, authority: string)
  {
    forall i :: 0 <= i < |events| ==> EventOk(events[i], buffer, authority)
  }

  lemma Appended(events: seq<Event>, more: seq<Event>, buffer: string, authority: string)
    ensures Datas(events + more) == Datas(events) + Datas(more)
    ensures EventsOk(events + more, buffer, authority)
       <==> EventsOk(events, buffer, authority) && EventsOk(more, buffer, authority)
  {
    hide EventOk;
    var all := events + more;
    assert forall i :: 0 <= i < |events| ==> all[i] == events[i];
    assert forall i :: 0 <= i < |more| ==> all[|events| + i] == more[i];
  }

  lemma {:induction false} SelectedIs(tx: Transaction, k: nat, loader: string, buffer: string, authority: string)
    requires WellFormed(tx) && k <= |tx.instructions|
    ensures k <= |View(tx).instructions| && |tx.header| == 3
    ensures var events := Selected(View(tx), k, loader, buffer);
      && Datas(events) == WriteDatas(tx, k, loader, buffer)
      && (EventsOk(events, buffer, authority) <==> PlacedTo(tx, k, loader, buffer, authority))
  {
    hide View, EventOk, LoaderWrite, Placed, IsWrite, WellFormed, EventsOk, PlacedTo, Datas;
    ViewedCount(tx);
    NoEvent(buffer, authority);
    if k == 0 {
      NonePlaced(tx, loader, buffer, authority);
    } else {
      SelectedIs(tx, k - 1, loader, buffer, authority);
      var ix, seen := tx.instructions[k - 1], View(tx).instructions[k - 1];
      WriteSelected(tx, k - 1, loader, buffer);
      WritePlaced(tx, k - 1, buffer, authority);
      ViewedInstruction(tx, k - 1);
      var more := if IsWrite(seen, loader, buffer) then [Event(View(tx), seen)] else [];
      Appended(Selected(View(tx), k - 1, loader, buffer), more, buffer, authority);
      OneEvent(Event(View(tx), seen), buffer, authority);
      NextPlaced(tx, k, loader, buffer, authority);
    }
  }

  lemma NonePlaced(tx: Transaction, loader: string, buffer: string, authority: string)
    requires |tx.header| == 3
    ensures PlacedTo(tx, 0, loader, buffer, authority)
  {
  }

  lemma NextPlaced(tx: Transaction, k: nat, loader: string, buffer: string, authority: string)
    requires 0 < k <= |tx.instructions| && |tx.header| == 3
    ensures var ix := tx.instructions[k - 1];
      PlacedTo(tx, k, loader, buffer, authority)
      <==> PlacedTo(tx, k - 1, loader, buffer, authority)
           && (LoaderWrite(tx, ix, loader, buffer) ==> Placed(tx, ix, buffer, authority))
  {
    hide LoaderWrite, Placed;
  }

  lemma OneEvent(e: Event, buffer: string, authority: string)
    ensures Datas([e]) == [e.instruction.data]
    ensures EventsOk([e], buffer, authority) <==> EventOk(e, buffer, authority)
  {
    hide EventOk;
    assert [e][0] == e;
  }

  lemma NoEvent(buffer: string, authority: string)
    ensures Datas([]) == [] && EventsOk([], buffer, authority)
  {
  }

  lemma ViewedCount(tx: Transaction)
    requires WellFormed(tx)
    ensures |View(tx).instructions| == |tx.instructions| && |tx.header| == 3
  {
    hide Encode, MessageBytes, ValidLength, LengthValue, Sized, InstructionOk;
  }

  /** The transactions the wires hold. */
  ghost predicate AllRead(wires: seq<Bytes>, txs: seq<Transaction>)
  {
    && |txs| == |wires|
    && forall i :: 0 <= i < |wires| ==> TakeTransaction(wires[i]) == Some(txs[i]) && WellFormed(txs[i])
  }

  ghost function Views(txs: seq<Transaction>): (messages: seq<Parsed>)
    requires forall i :: 0 <= i < |txs| ==> WellFormed(txs[i])
    ensures |messages| == |txs|
  {
    seq(|txs|, i requires 0 <= i < |txs| => View(txs[i]))
  }

  lemma {:induction false} AllSelectedIs(txs: seq<Transaction>, loader: string, buffer: string, authority: string)
    requires forall i :: 0 <= i < |txs| ==> WellFormed(txs[i])
    ensures var events := AllSelected(Views(txs), loader, buffer);
      && Datas(events) == AllDatas(txs, loader, buffer)
      && (EventsOk(events, buffer, authority) <==> AllPlaced(txs, loader, buffer, authority))
  {
    hide View, EventsOk, PlacedTo, WellFormed, Selected, WriteDatas;
    if txs != [] {
      var n := |txs| - 1;
      var tx := txs[n];
      AllSelectedIs(txs[..n], loader, buffer, authority);
      SelectedIs(tx, |tx.instructions|, loader, buffer, authority);
      ViewedCount(tx);
      assert Views(txs)[..n] == Views(txs[..n]);
      Appended(AllSelected(Views(txs[..n]), loader, buffer), Selected(View(tx), |tx.instructions|, loader, buffer),
               buffer, authority);
      LastPlaced(txs, loader, buffer, authority);
    } else {
      NoEvent(buffer, authority);
    }
  }

  lemma LastPlaced(txs: seq<Transaction>, loader: string, buffer: string, authority: string)
    requires txs != [] && |txs[|txs| - 1].header| == 3
    ensures var n := |txs| - 1;
      AllPlaced(txs, loader, buffer, authority)
      <==> AllPlaced(txs[..n], loader, buffer, authority)
           && PlacedTo(txs[n], |txs[n].instructions|, loader, buffer, authority)
  {
    hide PlacedTo;
  }

  /** Reconstruction succeeds exactly when every wire is a transaction, every loader write to the buffer
      stands on the accounts buffer and authority with the authority signing and the buffer writable by
      position, and the writes in order replay to the image. */
  lemma ReconstructedExactly(sbf: Bytes, wires: seq<Bytes>, loader: string, buffer: string, authority: string,
      repeats: int)
    ensures Reconstructed(sbf, wires, loader, buffer, authority, repeats) <==>
      exists txs :: AllRead(wires, txs) && AllPlaced(txs, loader, buffer, authority)
                    && Accepts(sbf, AllDatas(txs, loader, buffer), repeats)
  {
    hide ParsedOf, AllSelected, AllDatas, AllPlaced, Accepts, Replayed, TakeTransaction, WellFormed, View;
    if messages :| AllParse(wires, messages) && Replayed(sbf, messages, loader, buffer, authority, repeats) {
      var txs := ReadAll(wires, messages);
      ReplayedExactly(sbf, txs, loader, buffer, authority, repeats);
    }
    if txs :| AllRead(wires, txs) && AllPlaced(txs, loader, buffer, authority)
              && Accepts(sbf, AllDatas(txs, loader, buffer), repeats) {
      ParseAll(wires, txs);
      ReplayedExactly(sbf, txs, loader, buffer, authority, repeats);
    }
  }

  lemma ReadAll(wires: seq<Bytes>, messages: seq<Parsed>) returns (txs: seq<Transaction>)
    requires AllParse(wires, messages)
    ensures AllRead(wires, txs) && Views(txs) == messages
  {
    hide TakeTransaction, View, WellFormed;
    forall i | 0 <= i < |wires| ensures TakeTransaction(wires[i]).Some? && WellFormed(TakeTransaction(wires[i]).value) {
      assert ParsedOf(wires[i]) == Some(messages[i]);
      AcceptedIsWellFormed(wires[i]);
    }
    txs := seq(|wires|, i requires 0 <= i < |wires| => TakeTransaction(wires[i]).value);
    forall i | 0 <= i < |wires| ensures Views(txs)[i] == messages[i] {
      assert ParsedOf(wires[i]) == Some(messages[i]);
    }
  }

  lemma ParseAll(wires: seq<Bytes>, txs: seq<Transaction>)
    requires AllRead(wires, txs)
    ensures AllParse(wires, Views(txs))
  {
    hide TakeTransaction, View, WellFormed;
    forall i | 0 <= i < |wires| ensures ParsedOf(wires[i]) == Some(Views(txs)[i]) {
      assert TakeTransaction(wires[i]) == Some(txs[i]);
    }
  }

  lemma ReplayedExactly(sbf: Bytes, txs: seq<Transaction>, loader: string, buffer: string, authority: string,
      repeats: int)
    requires forall i :: 0 <= i < |txs| ==> WellFormed(txs[i])
    ensures Replayed(sbf, Views(txs), loader, buffer, authority, repeats)
       <==> AllPlaced(txs, loader, buffer, authority) && Accepts(sbf, AllDatas(txs, loader, buffer), repeats)
  {
    hide View, WellFormed, EventOk, AllSelected, AllPlaced, AllDatas, Accepts;
    AllSelectedIs(txs, loader, buffer, authority);
    var events := AllSelected(Views(txs), loader, buffer);
    assert (forall e :: e in events ==> EventOk(e, buffer, authority)) <==> EventsOk(events, buffer, authority);
  }

  // --------------------------------------------------------------------- consequences

  /** The first key named buffer is in the read-only tail of the signed or of the other keys. */
  ghost predicate ReadOnlyKey(tx: Transaction, p: nat, buffer: string)
    requires |tx.header| == 3
  {
    && Named(tx, p, buffer) && (forall j: nat :: j < p ==> !Named(tx, j, buffer))
    && var required: int, signed: int, unsigned: int := tx.header[0], tx.header[1], tx.header[2];
      required - signed <= p < required || |tx.keys| - unsigned <= p
  }

  /** One loader write on other accounts, not signed by the authority, or to a read-only buffer, and the
      history is refused whatever else it holds. */
  lemma MisplacedRefused(sbf: Bytes, wires: seq<Bytes>, loader: string, buffer: string, authority: string, repeats: int,
      i: nat, tx: Transaction, j: nat)
    requires i < |wires| && TakeTransaction(wires[i]) == Some(tx) && |tx.header| == 3
    requires j < |tx.instructions| && LoaderWrite(tx, tx.instructions[j], loader, buffer)
    requires var accounts := tx.instructions[j].accounts;
      || !(|accounts| == 2 && Named(tx, accounts[0], buffer) && Named(tx, accounts[1], authority))
      || (forall q: nat :: q < tx.header[0] ==> !Named(tx, q, authority))
      || (exists p: nat :: ReadOnlyKey(tx, p, buffer))
    ensures !Reconstructed(sbf, wires, loader, buffer, authority, repeats)
  {
    hide TakeTransaction, Accepts, AllDatas, LoaderWrite, Reconstructed, Named;
    AcceptedIsWellFormed(wires[i]);
    HeaderSums(tx);
    ReconstructedExactly(sbf, wires, loader, buffer, authority, repeats);
  }

  lemma {:induction false} AllDatasConcat(a: seq<Transaction>, b: seq<Transaction>, loader: string, buffer: string)
    ensures AllDatas(a + b, loader, buffer) == AllDatas(a, loader, buffer) + AllDatas(b, loader, buffer)
    decreases |b|
  {
    hide WriteDatas;
    if b == [] {
      assert a + b == a;
    } else {
      var n := |b| - 1;
      AllDatasConcat(a, b[..n], loader, buffer);
      assert (a + b)[..|a| + n] == a + b[..n] && (a + b)[|a| + n] == b[n];
      var last := WriteDatas(b[n], |b[n].instructions|, loader, buffer);
      Regrouped(AllDatas(a, loader, buffer), AllDatas(b[..n], loader, buffer), last);
    }
  }

  lemma Regrouped(a: seq<Bytes>, b: seq<Bytes>, c: seq<Bytes>)
    ensures (a + b) + c == a + (b + c)
  {
  }

  lemma {:induction false} NoDatas(tx: Transaction, k: nat, loader: string, buffer: string)
    requires k <= |tx.instructions|
    requires forall j :: 0 <= j < |tx.instructions| ==> !LoaderWrite(tx, tx.instructions[j], loader, buffer)
    ensures WriteDatas(tx, k, loader, buffer) == []
  {
    hide LoaderWrite;
    if k > 0 { NoDatas(tx, k - 1, loader, buffer); }
  }

  /** A transaction without a loader write to the buffer changes nothing, wherever it stands. */
  lemma IrrelevantWire(sbf: Bytes, before: seq<Bytes>, wire: Bytes, after: seq<Bytes>, loader: string, buffer: string,
      authority: string, repeats: int)
    requires var t := TakeTransaction(wire);
      t.Some? && forall ix :: ix in t.value.instructions ==> !LoaderWrite(t.value, ix, loader, buffer)
    ensures Reconstructed(sbf, before + [wire] + after, loader, buffer, authority, repeats)
       <==> Reconstructed(sbf, before + after, loader, buffer, authority, repeats)
  {
    hide *;
    var tx := TakeTransaction(wire).value;
    var long, short := before + [wire] + after, before + after;
    var n := |before|;
    AcceptedIsWellFormed(wire);
    ReconstructedExactly(sbf, long, loader, buffer, authority, repeats);
    ReconstructedExactly(sbf, short, loader, buffer, authority, repeats);
    if txs :| AllRead(long, txs) && AllPlaced(txs, loader, buffer, authority)
              && Accepts(sbf, AllDatas(txs, loader, buffer), repeats) {
      Without(before, wire, after, tx, txs, loader, buffer, authority);
      var rest := txs[..n] + txs[n + 1..];
      assert AllRead(short, rest) && AllPlaced(rest, loader, buffer, authority);
    }
    if txs :| AllRead(short, txs) && AllPlaced(txs, loader, buffer, authority)
              && Accepts(sbf, AllDatas(txs, loader, buffer), repeats) {
      With(before, wire, after, tx, txs, loader, buffer, authority);
      var all := txs[..n] + [tx] + txs[n..];
      assert AllRead(long, all) && AllPlaced(all, loader, buffer, authority);
    }
  }

  lemma Without(before: seq<Bytes>, wire: Bytes, after: seq<Bytes>, tx: Transaction, txs: seq<Transaction>,
      loader: string, buffer: string, authority: string)
    requires TakeTransaction(wire) == Some(tx)
    requires forall ix :: ix in tx.instructions ==> !LoaderWrite(tx, ix, loader, buffer)
    requires AllRead(before + [wire] + after, txs) && AllPlaced(txs, loader, buffer, authority)
    ensures |before| < |txs|
    ensures var rest := txs[..|before|] + txs[|before| + 1..];
      && AllRead(before + after, rest) && AllPlaced(rest, loader, buffer, authority)
      && AllDatas(rest, loader, buffer) == AllDatas(txs, loader, buffer)
  {
    hide TakeTransaction, WellFormed, PlacedTo, LoaderWrite, AllDatas;
    var n := |before|;
    var a, b := txs[..n], txs[n + 1..];
    var wires := before + [wire] + after;
    assert wires[n] == wire && txs[n] == tx;
    forall i | 0 <= i < |before + after|
      ensures TakeTransaction((before + after)[i]) == Some((a + b)[i]) && WellFormed((a + b)[i])
      ensures |(a + b)[i].header| == 3
      ensures PlacedTo((a + b)[i], |(a + b)[i].instructions|, loader, buffer, authority)
    {
      var k := if i < n then i else i + 1;
      assert (before + after)[i] == wires[k] && (a + b)[i] == txs[k];
    }
    SameDatas(a, tx, b, loader, buffer);
    assert txs == a + [tx] + b;
  }

  lemma With(before: seq<Bytes>, wire: Bytes, after: seq<Bytes>, tx: Transaction, txs: seq<Transaction>,
      loader: string, buffer: string, authority: string)
    requires TakeTransaction(wire) == Some(tx) && WellFormed(tx)
    requires forall ix :: ix in tx.instructions ==> !LoaderWrite(tx, ix, loader, buffer)
    requires AllRead(before + after, txs) && AllPlaced(txs, loader, buffer, authority)
    ensures |before| <= |txs|
    ensures var all := txs[..|before|] + [tx] + txs[|before|..];
      && AllRead(before + [wire] + after, all) && AllPlaced(all, loader, buffer, authority)
      && AllDatas(all, loader, buffer) == AllDatas(txs, loader, buffer)
  {
    hide TakeTransaction, WellFormed, LoaderWrite, AllDatas, Placed;
    HeaderSums(tx);
    var n := |before|;
    var a, b := txs[..n], txs[n..];
    var wires, all := before + [wire] + after, a + [tx] + b;
    forall i | 0 <= i < |wires|
      ensures TakeTransaction(wires[i]) == Some(all[i]) && WellFormed(all[i])
      ensures |all[i].header| == 3
      ensures PlacedTo(all[i], |all[i].instructions|, loader, buffer, authority)
    {
      if i != n {
        var k := if i < n then i else i - 1;
        assert wires[i] == (before + after)[k] && all[i] == txs[k];
      }
    }
    SameDatas(a, tx, b, loader, buffer);
    assert txs == a + b;
  }

  lemma SameDatas(a: seq<Transaction>, tx: Transaction, b: seq<Transaction>, loader: string, buffer: string)
    requires forall ix :: ix in tx.instructions ==> !LoaderWrite(tx, ix, loader, buffer)
    ensures AllDatas(a + [tx] + b, loader, buffer) == AllDatas(a + b, loader, buffer)
  {
    hide AllDatas, LoaderWrite;
    AllDatasConcat(a + [tx], b, loader, buffer);
    AllDatasConcat(a, [tx], loader, buffer);
    AllDatasConcat(a, b, loader, buffer);
    OneDatas(tx, loader, buffer);
    NoDatas(tx, |tx.instructions|, loader, buffer);
  }

  lemma OneDatas(tx: Transaction, loader: string, buffer: string)
    ensures AllDatas([tx], loader, buffer) == WriteDatas(tx, |tx.instructions|, loader, buffer)
  {
    hide WriteDatas;
    assert [tx][..0] == [];
    assert AllDatas([tx][..0], loader, buffer) == [];
  }
}
