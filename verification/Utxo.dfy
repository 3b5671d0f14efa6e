/** The set of unspent outputs and what connecting and disconnecting a block does to it. */
module Utxo {
  import opened Bytes
  import opened Types
  import opened Txid

  datatype Entry = Entry(amount: u64, scriptPubkey: Script)

  type UtxoMap = map<OutPoint, Entry>

  class UTXOSet {
    var coins: UtxoMap

    constructor ()
      ensures coins == map[]
    {
      coins := map[];
    }

    method Put(op: OutPoint, amount: u64, script: Script)
      modifies this
      ensures coins == old(coins)[op := Entry(amount, script)]
    {
      coins := coins[op := Entry(amount, script)];
    }

    method Get(op: OutPoint) returns (e: Option<Entry>)
      ensures e == if op in coins then Some(coins[op]) else None
    {
      if op in coins { return Some(coins[op]); }
      return None;
    }

    method Spend(op: OutPoint) returns (erased: bool)
      modifies this
      ensures coins == old(coins) - {op}
      ensures erased == (op in old(coins))
    {
      erased := op in coins;
      coins := coins - {op};
    }

    method Snapshot() returns (m: UtxoMap)
      ensures m == coins
    {
      m := coins;
    }

    method Has(op: OutPoint) returns (present: bool)
      ensures present == (op in coins)
    {
      present := op in coins;
    }
  }

  // ---------- specification ----------

  function InputsOf(txs: seq<Transaction>): seq<OutPoint> {
    if txs == [] then [] else Spends(txs[0].inputs) + InputsOf(txs[1..])
  }

  /** What a block spends, in order; the first transaction spends nothing. */
  function BlockInputs(b: Block): seq<OutPoint> {
    if b.transactions == [] then [] else InputsOf(b.transactions[1..])
  }

  /** The outputs of one transaction from number j on; the index is cast to 32 bits. */
  function OutputsFrom(txid: Hash, outs: seq<TxOutput>, j: nat): seq<(OutPoint, Entry)> {
    if outs == [] then [] else
      [(OutPoint(txid, j % 0x1_0000_0000), Entry(outs[0].amount, outs[0].scriptPubkey))]
      + OutputsFrom(txid, outs[1..], j + 1)
  }

  function CreatedBy(H: HashFn, txs: seq<Transaction>): seq<(OutPoint, Entry)> {
    if txs == [] then [] else OutputsFrom(TxidOf(H, txs[0]), txs[0].outputs, 0) + CreatedBy(H, txs[1..])
  }

  /** Spending one after another, stopping at the first coin that is not there. */
  function SpendAll(m: UtxoMap, ops: seq<OutPoint>): (bool, UtxoMap) {
    if ops == [] then (true, m)
    else if ops[0] !in m then (false, m)
    else SpendAll(m - {ops[0]}, ops[1..])
  }

  /** Later entries replace earlier ones with the same outpoint. */
  function Overlay(m: UtxoMap, created: seq<(OutPoint, Entry)>): UtxoMap
    decreases |created|
  {
    if created == [] then m else Overlay(m[created[0].0 := created[0].1], created[1..])
  }

  /** A failed connect keeps what it spent before it failed. */
  function ConnectUtxo(H: HashFn, m: UtxoMap, b: Block): (bool, UtxoMap) {
    var (ok, left) := SpendAll(m, BlockInputs(b));
    (ok, if ok then Overlay(left, CreatedBy(H, b.transactions)) else left)
  }

  function Ops(created: seq<(OutPoint, Entry)>): (s: set<OutPoint>) {
    set c | c in created :: c.0
  }

  function AsSet(ops: seq<OutPoint>): set<OutPoint> { set op | op in ops }

  function DisconnectUtxo(H: HashFn, m: UtxoMap, b: Block): UtxoMap {
    m - Ops(CreatedBy(H, b.transactions))
  }

  ghost predicate Distinct(ops: seq<OutPoint>) {
    forall i, j :: 0 <= i < j < |ops| ==> ops[i] != ops[j]
  }

  ghost predicate SubMap(a: UtxoMap, b: UtxoMap) {
    forall op :: op in a ==> op in b && a[op] == b[op]
  }

  // ---------- when connecting succeeds ----------

  lemma {:induction false} SpendAllExact(m: UtxoMap, ops: seq<OutPoint>)
    ensures SpendAll(m, ops).0 <==> Distinct(ops) && AsSet(ops) <= m.Keys
    ensures SpendAll(m, ops).0 ==> SpendAll(m, ops).1 == m - AsSet(ops)
    ensures SubMap(SpendAll(m, ops).1, m)
  {
    if ops != [] && ops[0] in m {
      var rest, less := ops[1..], m - {ops[0]};
      SpendAllExact(less, rest);
      DistinctStep(ops);
      assert AsSet(ops) == {ops[0]} + AsSet(rest);
      assert less - AsSet(rest) == m - AsSet(ops);
    } else if ops != [] {
      assert ops[0] in AsSet(ops);
    } else {
      assert m - AsSet(ops) == m;
    }
  }

  lemma DistinctStep(ops: seq<OutPoint>)
    requires ops != []
    ensures Distinct(ops) <==> Distinct(ops[1..]) && ops[0] !in AsSet(ops[1..])
  {
    var rest := ops[1..];
    if Distinct(rest) && ops[0] !in AsSet(rest) {
      forall i, j | 0 <= i < j < |ops|
        ensures ops[i] != ops[j]
      {
        assert ops[j] == rest[j - 1];
        if i > 0 {
          assert ops[i] == rest[i - 1];
        }
      }
    }
    if Distinct(ops) {
      forall k | 0 <= k < |rest|
        ensures rest[k] != ops[0]
      {
        assert rest[k] == ops[k + 1];
      }
    }
  }

  lemma {:induction false} OverlayExact(m: UtxoMap, created: seq<(OutPoint, Entry)>)
    ensures Overlay(m, created).Keys == m.Keys + Ops(created)
    ensures forall op :: op in m && op !in Ops(created) ==> Overlay(m, created)[op] == m[op]
    decreases |created|
  {
    if created != [] {
      OverlayExact(m[created[0].0 := created[0].1], created[1..]);
      assert Ops(created) == {created[0].0} + Ops(created[1..]) by {
        assert created == [created[0]] + created[1..];
      }
    }
  }

  /**
   Connecting succeeds exactly when the block's spends are pairwise distinct coins of the set it met;
   then the set is the old one without them, overlaid by the new outputs. Failing leaves part of it.
   */
  lemma ConnectExact(H: HashFn, m: UtxoMap, b: Block)
    ensures ConnectUtxo(H, m, b).0 <==> Distinct(BlockInputs(b)) && AsSet(BlockInputs(b)) <= m.Keys
    ensures ConnectUtxo(H, m, b).0 ==>
              ConnectUtxo(H, m, b).1 == Overlay(m - AsSet(BlockInputs(b)), CreatedBy(H, b.transactions))
    ensures !ConnectUtxo(H, m, b).0 ==> SubMap(ConnectUtxo(H, m, b).1, m)
  {
    SpendAllExact(m, BlockInputs(b));
  }

  /** Disconnecting a block that connected restores none of its spends and drops whatever it overwrote. */
  lemma DisconnectAfterConnect(H: HashFn, m: UtxoMap, b: Block)
    requires ConnectUtxo(H, m, b).0
    ensures DisconnectUtxo(H, ConnectUtxo(H, m, b).1, b)
         == m - AsSet(BlockInputs(b)) - Ops(CreatedBy(H, b.transactions))
  {
    ConnectExact(H, m, b);
    OverlayExact(m - AsSet(BlockInputs(b)), CreatedBy(H, b.transactions));
  }

  /** It is the inverse exactly for blocks that spend nothing and create only new outpoints. */
  lemma DisconnectInvertsExactly(H: HashFn, m: UtxoMap, b: Block)
    requires ConnectUtxo(H, m, b).0
    ensures DisconnectUtxo(H, ConnectUtxo(H, m, b).1, b) == m
       <==> BlockInputs(b) == [] && Ops(CreatedBy(H, b.transactions)) !! m.Keys
  {
    DisconnectAfterConnect(H, m, b);
    ConnectExact(H, m, b);
    var spent, created := AsSet(BlockInputs(b)), Ops(CreatedBy(H, b.transactions));
    EmptyAsSet(BlockInputs(b));
    assert (m - spent - created).Keys == m.Keys - spent - created;
    assert m - spent - created == m <==> m.Keys !! spent + created;
  }

  lemma EmptyAsSet(ops: seq<OutPoint>)
    ensures AsSet(ops) == {} <==> ops == []
  {
    if ops != [] {
      assert ops[0] in AsSet(ops);
    }
  }

  // ---------- the loops ----------

  lemma NextInputs(txs: seq<Transaction>, i: nat)
    requires i < |txs|
    ensures InputsOf(txs[i..]) == Spends(txs[i].inputs) + InputsOf(txs[i + 1..])
  {
    assert txs[i..][1..] == txs[i + 1..];
  }

  lemma NextCreated(H: HashFn, txs: seq<Transaction>, i: nat)
    requires i < |txs|
    ensures CreatedBy(H, txs[i..]) == OutputsFrom(TxidOf(H, txs[i]), txs[i].outputs, 0) + CreatedBy(H, txs[i + 1..])
  {
    assert txs[i..][1..] == txs[i + 1..];
  }

  /** Spends the inputs of one transaction; `later` is what the block spends after it. */
  method SpendInputs(utxo: UTXOSet, ins: seq<TxInput>, ghost later: seq<OutPoint>) returns (ok: bool)
    modifies utxo
    ensures ok ==> SpendAll(old(utxo.coins), Spends(ins) + later) == SpendAll(utxo.coins, later)
    ensures !ok ==> SpendAll(old(utxo.coins), Spends(ins) + later) == (false, utxo.coins)
  {
    ghost var ops := Spends(ins);
    assert ops[0..] == ops;
    for j := 0 to |ins|
      invariant SpendAll(old(utxo.coins), ops + later) == SpendAll(utxo.coins, ops[j..] + later)
    {
      var op := OutPoint(ins[j].prevTxHash, ins[j].outputIndex);
      assert (ops[j..] + later)[0] == op && (ops[j..] + later)[1..] == ops[j + 1..] + later;
      var present := utxo.Has(op);
      if !present { return false; }
      var _ := utxo.Spend(op);
    }
    assert ops[|ins|..] + later == later;
    return true;
  }

  /** Adds the outputs of one transaction; `later` is what the block creates after it. */
  method PutOutputs(utxo: UTXOSet, txid: Hash, outs: seq<TxOutput>, ghost later: seq<(OutPoint, Entry)>)
    modifies utxo
    ensures Overlay(old(utxo.coins), OutputsFrom(txid, outs, 0) + later) == Overlay(utxo.coins, later)
  {
    assert outs[0..] == outs;
    for j := 0 to |outs|
      invariant Overlay(old(utxo.coins), OutputsFrom(txid, outs, 0) + later)
             == Overlay(utxo.coins, OutputsFrom(txid, outs[j..], j) + later)
    {
      var op := OutPoint(txid, j % 0x1_0000_0000);
      ghost var todo := OutputsFrom(txid, outs[j..], j) + later;
      assert outs[j..][1..] == outs[j + 1..];
      assert todo[0] == (op, Entry(outs[j].amount, outs[j].scriptPubkey));
      assert todo[1..] == OutputsFrom(txid, outs[j + 1..], j + 1) + later;
      utxo.Put(op, outs[j].amount, outs[j].scriptPubkey);
    }
    assert OutputsFrom(txid, outs[|outs|..], |outs|) + later == later;
  }

  method ConnectBlockUTXO(H: HashFn, b: Block, utxo: UTXOSet) returns (ok: bool)
    modifies utxo
    ensures (ok, utxo.coins) == ConnectUtxo(H, old(utxo.coins), b)
  {
    ghost var txs := b.transactions;
    var i := 1;
    while i < |b.transactions|
      invariant 1 <= i
      invariant |txs| > 0 ==> i <= |txs|
      invariant |txs| == 0 ==> utxo.coins == old(utxo.coins)
      invariant |txs| > 0 ==> SpendAll(old(utxo.coins), BlockInputs(b)) == SpendAll(utxo.coins, InputsOf(txs[i..]))
    {
      NextInputs(txs, i);
      ok := SpendInputs(utxo, b.transactions[i].inputs, InputsOf(txs[i + 1..]));
      if !ok { return; }
      i := i + 1;
    }
    assert SpendAll(old(utxo.coins), BlockInputs(b)) == (true, utxo.coins);
    PutAll(H, b.transactions, utxo);
    return true;
  }

  method PutAll(H: HashFn, txs: seq<Transaction>, utxo: UTXOSet)
    modifies utxo
    ensures utxo.coins == Overlay(old(utxo.coins), CreatedBy(H, txs))
  {
    assert txs[0..] == txs;
    for i := 0 to |txs|
      invariant Overlay(old(utxo.coins), CreatedBy(H, txs)) == Overlay(utxo.coins, CreatedBy(H, txs[i..]))
    {
      NextCreated(H, txs, i);
      PutOutputs(utxo, TxidOf(H, txs[i]), txs[i].outputs, CreatedBy(H, txs[i + 1..]));
    }
  }

  /** The second half of the program's loop, which should restore the inputs, does nothing. */
  method DisconnectBlockUTXO(H: HashFn, b: Block, utxo: UTXOSet)
    modifies utxo
    ensures utxo.coins == DisconnectUtxo(H, old(utxo.coins), b)
  {
    ghost var all := CreatedBy(H, b.transactions);
    ghost var txs := b.transactions;
    assert txs[0..] == txs;
    for i := 0 to |b.transactions|
      invariant utxo.coins - Ops(CreatedBy(H, txs[i..])) == old(utxo.coins) - Ops(all)
    {
      NextCreated(H, txs, i);
      var txid := TxidOf(H, b.transactions[i]);
      ghost var made, later := OutputsFrom(txid, txs[i].outputs, 0), CreatedBy(H, txs[i + 1..]);
      RemoveBoth(utxo.coins, made, later);
      RemoveOutputs(utxo, txid, b.transactions[i].outputs);
    }
    assert utxo.coins - Ops([]) == utxo.coins;
  }

  lemma RemoveBoth(m: UtxoMap, a: seq<(OutPoint, Entry)>, b: seq<(OutPoint, Entry)>)
    ensures m - Ops(a + b) == m - Ops(a) - Ops(b)
  {
    assert Ops(a + b) == Ops(a) + Ops(b);
  }

  method RemoveOutputs(utxo: UTXOSet, txid: Hash, outs: seq<TxOutput>)
    modifies utxo
    ensures utxo.coins == old(utxo.coins) - Ops(OutputsFrom(txid, outs, 0))
  {
    ghost var all := OutputsFrom(txid, outs, 0);
    assert outs[0..] == outs;
    for j := 0 to |outs|
      invariant utxo.coins - Ops(OutputsFrom(txid, outs[j..], j)) == old(utxo.coins) - Ops(all)
    {
      ghost var todo := OutputsFrom(txid, outs[j..], j);
      assert outs[j..][1..] == outs[j + 1..];
      assert todo == [todo[0]] + todo[1..];
      assert Ops(todo) == {todo[0].0} + Ops(todo[1..]);
      var _ := utxo.Spend(OutPoint(txid, j % 0x1_0000_0000));
    }
    assert utxo.coins - Ops([]) == utxo.coins;
  }
}
