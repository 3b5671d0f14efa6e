/** What connecting and disconnecting a block does, coin by coin and by the places of inputs and outputs. */
module ConnectedCoins {
  import opened Types
  import opened Txid
  import opened Utxo

  // ---------- outputs ----------

  /** Output number j of a transaction is kept under that number, cast to 32 bits. */
  function Place(txid: Hash, j: nat): OutPoint { OutPoint(txid, j % 0x1_0000_0000) }

  function EntryOf(o: TxOutput): Entry { Entry(o.amount, o.scriptPubkey) }

  lemma {:induction false} OverlayAppend(m: UtxoMap, a: seq<(OutPoint, Entry)>, b: seq<(OutPoint, Entry)>)
    ensures Overlay(m, a + b) == Overlay(Overlay(m, a), b)
    decreases |a|
  {
    if a == [] {
      assert a + b == b;
    } else {
      assert (a + b)[1..] == a[1..] + b;
      OverlayAppend(m[a[0].0 := a[0].1], a[1..], b);
    }
  }

  /** One of the outputs, numbered from `from` on, is kept there. */
  ghost predicate PutByOutputs(txid: Hash, outs: seq<TxOutput>, from: nat, op: OutPoint) {
    exists j: nat :: from <= j < from + |outs| && op == Place(txid, j)
  }

  /** Number j is one of theirs, and no later one is kept in its place. */
  ghost predicate LastOfOutputs(txid: Hash, outs: seq<TxOutput>, from: nat, j: nat) {
    && from <= j < from + |outs|
    && forall k: nat :: j < k < from + |outs| ==> Place(txid, k) != Place(txid, j)
  }

  ghost predicate OutputsPlaced(before: UtxoMap, after: UtxoMap, txid: Hash, outs: seq<TxOutput>, from: nat) {
    && (forall j: nat :: LastOfOutputs(txid, outs, from, j) ==>
          Place(txid, j) in after && after[Place(txid, j)] == EntryOf(outs[j - from]))
    && (forall op :: !PutByOutputs(txid, outs, from, op) ==>
          (op in after <==> op in before) && (op in after ==> after[op] == before[op]))
    && (forall op :: PutByOutputs(txid, outs, from, op) ==> op in after)
  }

  lemma {:induction false} OutputsExact(m: UtxoMap, txid: Hash, outs: seq<TxOutput>, from: nat)
    ensures OutputsPlaced(m, Overlay(m, OutputsFrom(txid, outs, from)), txid, outs, from)
    decreases |outs|
  {
    if outs != [] {
      var m' := m[Place(txid, from) := EntryOf(outs[0])];
      assert OutputsFrom(txid, outs, from)[1..] == OutputsFrom(txid, outs[1..], from + 1);
      OutputsExact(m', txid, outs[1..], from + 1);
      FirstOutput(m, m', Overlay(m', OutputsFrom(txid, outs[1..], from + 1)), txid, outs, from);
    }
  }

  lemma FirstOutput(m: UtxoMap, m': UtxoMap, after: UtxoMap, txid: Hash, outs: seq<TxOutput>, from: nat)
    requires outs != [] && m' == m[Place(txid, from) := EntryOf(outs[0])]
    requires OutputsPlaced(m', after, txid, outs[1..], from + 1)
    ensures OutputsPlaced(m, after, txid, outs, from)
  {
    var rest := outs[1..];
    forall j: nat | LastOfOutputs(txid, outs, from, j)
      ensures Place(txid, j) in after && after[Place(txid, j)] == EntryOf(outs[j - from])
    {
      if j == from {
        assert !PutByOutputs(txid, rest, from + 1, Place(txid, from));
      } else {
        assert LastOfOutputs(txid, rest, from + 1, j) && rest[j - (from + 1)] == outs[j - from];
      }
    }
    forall op
      ensures PutByOutputs(txid, outs, from, op) <==> op == Place(txid, from) || PutByOutputs(txid, rest, from + 1, op)
    {
      PutByFirstOrRest(txid, outs, from, op);
    }
  }

  lemma PutByFirstOrRest(txid: Hash, outs: seq<TxOutput>, from: nat, op: OutPoint)
    requires outs != []
    ensures PutByOutputs(txid, outs, from, op)
       <==> op == Place(txid, from) || PutByOutputs(txid, outs[1..], from + 1, op)
  {
  }

  /** Some output of the transactions is kept there. */
  ghost predicate PutBy(H: HashFn, txs: seq<Transaction>, op: OutPoint) {
    exists i: nat, j: nat :: i < |txs| && j < |txs[i].outputs| && op == Place(TxidOf(H, txs[i]), j)
  }

  /** Output j of transaction i is not replaced by a later one, of its own or a later transaction. */
  ghost predicate LastPut(H: HashFn, txs: seq<Transaction>, i: nat, j: nat) {
    && i < |txs| && LastOfOutputs(TxidOf(H, txs[i]), txs[i].outputs, 0, j)
    && !PutBy(H, txs[i + 1..], Place(TxidOf(H, txs[i]), j))
  }

  ghost predicate AllPlaced(H: HashFn, before: UtxoMap, after: UtxoMap, txs: seq<Transaction>) {
    && (forall i: nat, j: nat :: LastPut(H, txs, i, j) ==>
          && Place(TxidOf(H, txs[i]), j) in after
          && after[Place(TxidOf(H, txs[i]), j)] == EntryOf(txs[i].outputs[j]))
    && (forall op :: !PutBy(H, txs, op) ==>
          (op in after <==> op in before) && (op in after ==> after[op] == before[op]))
    && (forall op :: PutBy(H, txs, op) ==> op in after)
  }

  lemma PutByFirstTx(H: HashFn, txs: seq<Transaction>, op: OutPoint)
    requires txs != []
    ensures PutBy(H, txs, op)
       <==> PutByOutputs(TxidOf(H, txs[0]), txs[0].outputs, 0, op) || PutBy(H, txs[1..], op)
  {
    if PutBy(H, txs, op) {
      var i: nat, j: nat :| i < |txs| && j < |txs[i].outputs| && op == Place(TxidOf(H, txs[i]), j);
      if i > 0 {
        assert txs[1..][i - 1] == txs[i];
      }
    }
    if PutByOutputs(TxidOf(H, txs[0]), txs[0].outputs, 0, op) {
      var j: nat :| 0 <= j < 0 + |txs[0].outputs| && op == Place(TxidOf(H, txs[0]), j);
    }
    if PutBy(H, txs[1..], op) {
      var i: nat, j: nat :| i < |txs[1..]| && j < |txs[1..][i].outputs| && op == Place(TxidOf(H, txs[1..][i]), j);
      assert txs[i + 1] == txs[1..][i];
    }
  }

  lemma {:induction false} BlockOutputsExact(H: HashFn, m: UtxoMap, txs: seq<Transaction>)
    ensures AllPlaced(H, m, Overlay(m, CreatedBy(H, txs)), txs)
    decreases |txs|
  {
    if txs != [] {
      var txid, outs := TxidOf(H, txs[0]), txs[0].outputs;
      var m' := Overlay(m, OutputsFrom(txid, outs, 0));
      OverlayAppend(m, OutputsFrom(txid, outs, 0), CreatedBy(H, txs[1..]));
      OutputsExact(m, txid, outs, 0);
      BlockOutputsExact(H, m', txs[1..]);
      FirstTransaction(H, m, m', Overlay(m', CreatedBy(H, txs[1..])), txs);
    }
  }

  lemma FirstTransaction(H: HashFn, m: UtxoMap, m': UtxoMap, after: UtxoMap, txs: seq<Transaction>)
    requires txs != [] && OutputsPlaced(m, m', TxidOf(H, txs[0]), txs[0].outputs, 0)
    requires AllPlaced(H, m', after, txs[1..])
    ensures AllPlaced(H, m, after, txs)
  {
    forall op
      ensures PutBy(H, txs, op)
         <==> PutByOutputs(TxidOf(H, txs[0]), txs[0].outputs, 0, op) || PutBy(H, txs[1..], op)
    {
      PutByFirstTx(H, txs, op);
    }
    forall i: nat, j: nat | LastPut(H, txs, i, j)
      ensures Place(TxidOf(H, txs[i]), j) in after
      ensures after[Place(TxidOf(H, txs[i]), j)] == EntryOf(txs[i].outputs[j])
    {
      if i > 0 {
        assert txs[1..][i - 1] == txs[i] && txs[1..][i..] == txs[i + 1..];
        assert LastPut(H, txs[1..], i - 1, j);
      }
    }
  }

  // ---------- inputs ----------

  /** Input j of transaction i names that outpoint. */
  ghost predicate NamedIn(txs: seq<Transaction>, i: nat, j: nat, op: OutPoint) {
    && i < |txs| && j < |txs[i].inputs|
    && op == OutPoint(txs[i].inputs[j].prevTxHash, txs[i].inputs[j].outputIndex)
  }

  /** Two inputs name it. */
  ghost predicate NamedTwiceIn(txs: seq<Transaction>, op: OutPoint, i: nat, j: nat, i': nat, j': nat) {
    NamedIn(txs, i, j, op) && NamedIn(txs, i', j', op) && (i != i' || j != j')
  }

  /** Place of input j of transaction i among all inputs. */
  function Index(txs: seq<Transaction>, i: nat, j: nat): nat
    requires i < |txs|
  {
    if i == 0 then j else |txs[0].inputs| + Index(txs[1..], i - 1, j)
  }

  lemma {:induction false} InputAt(txs: seq<Transaction>, i: nat, j: nat, op: OutPoint)
    requires NamedIn(txs, i, j, op)
    ensures Index(txs, i, j) < |InputsOf(txs)| && InputsOf(txs)[Index(txs, i, j)] == op
  {
    if i > 0 {
      InputAt(txs[1..], i - 1, j, op);
    }
  }

  lemma {:induction false} IndexOrdered(txs: seq<Transaction>, i: nat, j: nat, i': nat, j': nat)
    requires i' < |txs| && i <= i' && j < |txs[i].inputs| && j' < |txs[i'].inputs| && (i == i' ==> j < j')
    ensures Index(txs, i, j) < Index(txs, i', j')
  {
    if i > 0 {
      IndexOrdered(txs[1..], i - 1, j, i' - 1, j');
    }
  }

  /** Every place among all inputs is that of some input. */
  lemma {:induction false} PlaceOfIndex(txs: seq<Transaction>, k: nat) returns (i: nat, j: nat)
    requires k < |InputsOf(txs)|
    ensures NamedIn(txs, i, j, InputsOf(txs)[k]) && Index(txs, i, j) == k
  {
    var n := |txs[0].inputs|;
    if k < n {
      i, j := 0, k;
    } else {
      i, j := PlaceOfIndex(txs[1..], k - n);
      assert InputsOf(txs)[k] == InputsOf(txs[1..])[k - n];
      i := i + 1;
    }
  }

  lemma TwoPlaces(txs: seq<Transaction>, op: OutPoint, i: nat, j: nat, i': nat, j': nat)
    requires NamedTwiceIn(txs, op, i, j, i', j') && (i < i' || (i == i' && j < j'))
    ensures !Distinct(InputsOf(txs))
  {
    InputAt(txs, i, j, op);
    InputAt(txs, i', j', op);
    IndexOrdered(txs, i, j, i', j');
  }

  lemma TwiceIsIndistinct(txs: seq<Transaction>, op: OutPoint, i: nat, j: nat, i': nat, j': nat)
    requires NamedTwiceIn(txs, op, i, j, i', j')
    ensures !Distinct(InputsOf(txs))
  {
    if i < i' || (i == i' && j < j') {
      TwoPlaces(txs, op, i, j, i', j');
    } else {
      TwoPlaces(txs, op, i', j', i, j);
    }
  }

  lemma IndistinctIsTwice(txs: seq<Transaction>) returns (op: OutPoint, i: nat, j: nat, i': nat, j': nat)
    requires !Distinct(InputsOf(txs))
    ensures NamedTwiceIn(txs, op, i, j, i', j')
  {
    var all := InputsOf(txs);
    var k, l :| 0 <= k < l < |all| && all[k] == all[l];
    op := all[k];
    i, j := PlaceOfIndex(txs, k);
    i', j' := PlaceOfIndex(txs, l);
  }

  /** Input j of transaction i, not the first, names that outpoint. */
  ghost predicate NamedAt(b: Block, i: nat, j: nat, op: OutPoint) { i >= 1 && NamedIn(b.transactions, i, j, op) }

  ghost predicate Named(b: Block, op: OutPoint) { exists i: nat, j: nat :: NamedAt(b, i, j, op) }

  ghost predicate NamedAtBoth(b: Block, op: OutPoint, i: nat, j: nat, i': nat, j': nat) {
    NamedAt(b, i, j, op) && NamedAt(b, i', j', op) && (i != i' || j != j')
  }

  /** Some outpoint is named at two places. */
  ghost predicate NamesTwice(b: Block) {
    exists op, i: nat, j: nat, i': nat, j': nat :: NamedAtBoth(b, op, i, j, i', j')
  }

  lemma NamedInRest(b: Block, txs: seq<Transaction>, i: nat, j: nat, op: OutPoint)
    requires b.transactions != [] && txs == b.transactions[1..]
    ensures NamedIn(txs, i, j, op) <==> NamedAt(b, i + 1, j, op)
  {
  }

  lemma NamedIsInput(b: Block, op: OutPoint)
    ensures Named(b, op) <==> op in AsSet(BlockInputs(b))
  {
    if b.transactions != [] {
      var txs := b.transactions[1..];
      if Named(b, op) {
        var i: nat, j: nat :| NamedAt(b, i, j, op);
        NamedInRest(b, txs, i - 1, j, op);
        InputAt(txs, i - 1, j, op);
      }
      if op in AsSet(InputsOf(txs)) {
        var k :| 0 <= k < |InputsOf(txs)| && InputsOf(txs)[k] == op;
        var i, j := PlaceOfIndex(txs, k);
        NamedInRest(b, txs, i, j, op);
      }
    }
  }

  lemma DistinctExactly(b: Block)
    ensures Distinct(BlockInputs(b)) <==> !NamesTwice(b)
  {
    if b.transactions != [] {
      var txs := b.transactions[1..];
      if NamesTwice(b) {
        var op, i: nat, j: nat, i': nat, j': nat :| NamedAtBoth(b, op, i, j, i', j');
        NamedInRest(b, txs, i - 1, j, op);
        NamedInRest(b, txs, i' - 1, j', op);
        TwiceIsIndistinct(txs, op, i - 1, j, i' - 1, j');
      }
      if !Distinct(InputsOf(txs)) {
        var op, i, j, i', j' := IndistinctIsTwice(txs);
        NamedInRest(b, txs, i, j, op);
        NamedInRest(b, txs, i', j', op);
        assert NamedAtBoth(b, op, i + 1, j, i' + 1, j');
      }
    }
  }

  // ---------- blocks ----------

  /**
   A block connects exactly when every input after those of the first transaction names a coin of the set
   and no two name the same.
   */
  lemma ConnectsExactly(H: HashFn, m: UtxoMap, b: Block)
    ensures ConnectUtxo(H, m, b).0
       <==> !NamesTwice(b) && forall i: nat, j: nat, op :: NamedAt(b, i, j, op) ==> op in m
  {
    ConnectExact(H, m, b);
    DistinctExactly(b);
    forall op
      ensures Named(b, op) <==> op in AsSet(BlockInputs(b))
    {
      NamedIsInput(b, op);
    }
    if forall i: nat, j: nat, op :: NamedAt(b, i, j, op) ==> op in m {
      forall op | op in AsSet(BlockInputs(b))
        ensures op in m
      {
        assert Named(b, op);
      }
    }
    if AsSet(BlockInputs(b)) <= m.Keys {
      forall i: nat, j: nat, op | NamedAt(b, i, j, op)
        ensures op in m
      {
        assert Named(b, op);
      }
    }
  }

  /**
   Then every output that no later one replaces is in the set under its transaction's id and its own
   number, with its amount and script, and everything else is an old coin that the block does not name.
   */
  lemma ConnectedEntries(H: HashFn, m: UtxoMap, b: Block)
    requires ConnectUtxo(H, m, b).0
    ensures var after := ConnectUtxo(H, m, b).1;
            && (forall i: nat, j: nat :: LastPut(H, b.transactions, i, j) ==>
                  && Place(TxidOf(H, b.transactions[i]), j) in after
                  && after[Place(TxidOf(H, b.transactions[i]), j)] == EntryOf(b.transactions[i].outputs[j]))
            && (forall op :: op in after <==> PutBy(H, b.transactions, op) || (op in m && !Named(b, op)))
            && (forall op :: op in after && !PutBy(H, b.transactions, op) ==> after[op] == m[op])
  {
    ConnectExact(H, m, b);
    BlockOutputsExact(H, m - AsSet(BlockInputs(b)), b.transactions);
    forall op
      ensures Named(b, op) <==> op in AsSet(BlockInputs(b))
    {
      NamedIsInput(b, op);
    }
  }

  /** Up to 2^32 outputs have a number each: only a later transaction of the same id can replace one. */
  lemma OutputsKept(H: HashFn, m: UtxoMap, b: Block, i: nat, j: nat)
    requires ConnectUtxo(H, m, b).0
    requires i < |b.transactions| && j < |b.transactions[i].outputs| <= 0x1_0000_0000
    requires forall k :: i < k < |b.transactions| ==> TxidOf(H, b.transactions[k]) != TxidOf(H, b.transactions[i])
    ensures var op := OutPoint(TxidOf(H, b.transactions[i]), j);
            var o := b.transactions[i].outputs[j];
            op in ConnectUtxo(H, m, b).1 && ConnectUtxo(H, m, b).1[op] == Entry(o.amount, o.scriptPubkey)
  {
    ConnectedEntries(H, m, b);
    OnlyOwnNumber(H, b.transactions, i, j);
  }

  lemma OnlyOwnNumber(H: HashFn, txs: seq<Transaction>, i: nat, j: nat)
    requires i < |txs| && j < |txs[i].outputs| <= 0x1_0000_0000
    requires forall k :: i < k < |txs| ==> TxidOf(H, txs[k]) != TxidOf(H, txs[i])
    ensures LastPut(H, txs, i, j) && Place(TxidOf(H, txs[i]), j) == OutPoint(TxidOf(H, txs[i]), j)
  {
    var later := txs[i + 1..];
    forall k: nat | k < |later|
      ensures TxidOf(H, later[k]) != TxidOf(H, txs[i])
    {
      assert later[k] == txs[i + 1 + k];
    }
  }

  lemma PutIsCreated(H: HashFn, txs: seq<Transaction>, op: OutPoint)
    ensures PutBy(H, txs, op) <==> op in Ops(CreatedBy(H, txs))
  {
    BlockOutputsExact(H, map[], txs);
    OverlayExact(map[], CreatedBy(H, txs));
  }

  /** Disconnecting takes away exactly the outpoints of the block's outputs, and leaves every other coin. */
  lemma DisconnectedEntries(H: HashFn, m: UtxoMap, b: Block)
    ensures forall op :: op in DisconnectUtxo(H, m, b) <==> op in m && !PutBy(H, b.transactions, op)
    ensures forall op :: op in DisconnectUtxo(H, m, b) ==> DisconnectUtxo(H, m, b)[op] == m[op]
  {
    forall op
      ensures PutBy(H, b.transactions, op) <==> op in Ops(CreatedBy(H, b.transactions))
    {
      PutIsCreated(H, b.transactions, op);
    }
  }
}
