/** How many coins there can be: conservation in one block, a bound over every run. */
module Supply {
  import opened Bytes
  import opened Types
  import opened Txid
  import opened Consensus
  import opened Subsidy
  import opened Utxo
  import opened Chain
  import opened ChainRuns

  // ---------- sums ----------

  /** The amounts of all coins of a set. */
  ghost function Total(m: UtxoMap): nat
    decreases |m|
  {
    if m == map[] then 0 else
    var op :| op in m;
    assert |m - {op}| < |m| by { assert (m - {op}).Keys == m.Keys - {op}; }
    m[op].amount + Total(m - {op})
  }

  lemma {:induction false} TotalWithout(m: UtxoMap, op: OutPoint)
    requires op in m
    ensures Total(m) == m[op].amount + Total(m - {op})
    decreases |m|
  {
    var first :| first in m && Total(m) == m[first].amount + Total(m - {first});
    if first != op {
      assert (m - {first}).Keys == m.Keys - {first};
      TotalWithout(m - {first}, op);
      assert (m - {op}).Keys == m.Keys - {op};
      TotalWithout(m - {op}, first);
      assert m - {first} - {op} == m - {op} - {first};
    }
  }

  /** What an outpoint is worth in a set: nothing if it is not there. */
  function AmountOf(m: UtxoMap, op: OutPoint): nat { if op in m then m[op].amount else 0 }

  lemma TotalWith(m: UtxoMap, op: OutPoint, e: Entry)
    ensures Total(m[op := e]) + AmountOf(m, op) == Total(m) + e.amount
    ensures e.amount <= Total(m[op := e])
  {
    TotalWithout(m[op := e], op);
    if op in m {
      TotalWithout(m, op);
      assert m[op := e] - {op} == m - {op};
    } else {
      assert m[op := e] - {op} == m;
    }
  }

  function SumCreated(created: seq<(OutPoint, Entry)>): nat {
    if created == [] then 0 else created[0].1.amount + SumCreated(created[1..])
  }

  /** The amounts of the named coins that are in the set, counting repetitions. */
  function SumSpent(m: UtxoMap, ops: seq<OutPoint>): nat {
    if ops == [] then 0 else AmountOf(m, ops[0]) + SumSpent(m, ops[1..])
  }

  lemma {:induction false} SumSpentWithout(m: UtxoMap, op: OutPoint, ops: seq<OutPoint>)
    requires op !in AsSet(ops)
    ensures SumSpent(m - {op}, ops) == SumSpent(m, ops)
  {
    if ops != [] {
      assert ops[0] in AsSet(ops) && forall o :: o in ops[1..] ==> o in AsSet(ops);
      SumSpentWithout(m, op, ops[1..]);
    }
  }

  /** What spending one after another takes before it stops at a coin that is not there. */
  function SpentUntilMissing(m: UtxoMap, ops: seq<OutPoint>): nat {
    if ops == [] || ops[0] !in m then 0 else m[ops[0]].amount + SpentUntilMissing(m - {ops[0]}, ops[1..])
  }

  /** Spending takes away exactly what it names; a failed attempt what it names before the missing coin. */
  lemma {:induction false} SpendAllTotal(m: UtxoMap, ops: seq<OutPoint>)
    ensures Total(SpendAll(m, ops).1) + SpentUntilMissing(m, ops) == Total(m)
    ensures SpendAll(m, ops).0 ==> SpentUntilMissing(m, ops) == SumSpent(m, ops)
  {
    if ops != [] && ops[0] in m {
      TotalWithout(m, ops[0]);
      SpendAllTotal(m - {ops[0]}, ops[1..]);
      if SpendAll(m, ops).0 {
        SpendAllExact(m - {ops[0]}, ops[1..]);
        assert ops[0] !in m - {ops[0]};
        SumSpentWithout(m, ops[0], ops[1..]);
      }
    }
  }

  /** The amounts of the coins that outputs take the place of, put into the set one after another. */
  function Replaced(m: UtxoMap, created: seq<(OutPoint, Entry)>): nat
    decreases |created|
  {
    if created == [] then 0
    else AmountOf(m, created[0].0) + Replaced(m[created[0].0 := created[0].1], created[1..])
  }

  /** Adding outputs adds their amounts less those of the coins they replace. */
  lemma {:induction false} OverlayTotal(m: UtxoMap, created: seq<(OutPoint, Entry)>)
    ensures Total(Overlay(m, created)) + Replaced(m, created) == Total(m) + SumCreated(created)
    decreases |created|
  {
    if created != [] {
      TotalWith(m, created[0].0, created[0].1);
      OverlayTotal(m[created[0].0 := created[0].1], created[1..]);
    }
  }

  /** No output takes the place of a coin or of an earlier output. */
  ghost predicate Fresh(m: UtxoMap, created: seq<(OutPoint, Entry)>)
    decreases |created|
  {
    created != [] ==>
      created[0].0 !in m && Fresh(m[created[0].0 := created[0].1], created[1..])
  }

  lemma {:induction false} FreshReplacesNothing(m: UtxoMap, created: seq<(OutPoint, Entry)>)
    requires Fresh(m, created)
    ensures Replaced(m, created) == 0
    decreases |created|
  {
    if created != [] {
      FreshReplacesNothing(m[created[0].0 := created[0].1], created[1..]);
    }
  }

  /** What a block's outputs replace once its inputs are spent. */
  function ReplacedBy(H: HashFn, m: UtxoMap, b: Block): nat {
    Replaced(SpendAll(m, BlockInputs(b)).1, CreatedBy(H, b.transactions))
  }

  /**
   A connected block changes the total by outputs minus inputs minus what its outputs replace, so by
   exactly outputs minus inputs when it replaces nothing of value, as with new outpoints, and only then.
   */
  lemma ConnectConserves(H: HashFn, m: UtxoMap, b: Block)
    requires ConnectUtxo(H, m, b).0
    ensures Total(ConnectUtxo(H, m, b).1) + SumSpent(m, BlockInputs(b)) + ReplacedBy(H, m, b)
         == Total(m) + SumCreated(CreatedBy(H, b.transactions))
    ensures Fresh(SpendAll(m, BlockInputs(b)).1, CreatedBy(H, b.transactions)) ==> ReplacedBy(H, m, b) == 0
  {
    SpendAllTotal(m, BlockInputs(b));
    OverlayTotal(SpendAll(m, BlockInputs(b)).1, CreatedBy(H, b.transactions));
    if Fresh(SpendAll(m, BlockInputs(b)).1, CreatedBy(H, b.transactions)) {
      FreshReplacesNothing(SpendAll(m, BlockInputs(b)).1, CreatedBy(H, b.transactions));
    }
  }

  // ---------- from transactions to blocks ----------

  lemma {:induction false} SumOutputsFromFront(outs: seq<TxOutput>)
    requires outs != []
    ensures SumOutputs(outs) == outs[0].amount + SumOutputs(outs[1..])
  {
    var n := |outs| - 1;
    if n > 0 {
      SumOutputsFromFront(outs[..n]);
      assert outs[..n][1..] == outs[1..][..n - 1];
    } else {
      assert outs[..0] == [] && outs[1..] == [];
    }
  }

  lemma {:induction false} SumOfOutputs(txid: Hash, outs: seq<TxOutput>, j: nat)
    ensures SumCreated(OutputsFrom(txid, outs, j)) == SumOutputs(outs)
    decreases |outs|
  {
    if outs != [] {
      SumOutputsFromFront(outs);
      SumOfOutputs(txid, outs[1..], j + 1);
    }
  }

  lemma {:induction false} SumCreatedAppend(a: seq<(OutPoint, Entry)>, b: seq<(OutPoint, Entry)>)
    ensures SumCreated(a + b) == SumCreated(a) + SumCreated(b)
  {
    if a == [] {
      assert a + b == b;
    } else {
      assert (a + b)[1..] == a[1..] + b;
      SumCreatedAppend(a[1..], b);
    }
  }

  lemma {:induction false} SumSpentAppend(m: UtxoMap, a: seq<OutPoint>, b: seq<OutPoint>)
    ensures SumSpent(m, a + b) == SumSpent(m, a) + SumSpent(m, b)
  {
    if a == [] {
      assert a + b == b;
    } else {
      assert (a + b)[1..] == a[1..] + b;
      SumSpentAppend(m, a[1..], b);
    }
  }

  /** A transaction pays out no more than the coins it names. */
  ghost predicate TxConserves(m: UtxoMap, tx: Transaction) {
    SumOutputs(tx.outputs) <= SumSpent(m, Spends(tx.inputs))
  }

  lemma {:induction false} TxsConserve(H: HashFn, m: UtxoMap, txs: seq<Transaction>)
    requires forall tx :: tx in txs ==> TxConserves(m, tx)
    ensures SumCreated(CreatedBy(H, txs)) <= SumSpent(m, InputsOf(txs))
  {
    if txs != [] {
      var tx := txs[0];
      var made := OutputsFrom(TxidOf(H, tx), tx.outputs, 0);
      assert TxConserves(m, tx);
      SumOfOutputs(TxidOf(H, tx), tx.outputs, 0);
      TxsConserve(H, m, txs[1..]);
      SumCreatedAppend(made, CreatedBy(H, txs[1..]));
      SumSpentAppend(m, Spends(tx.inputs), InputsOf(txs[1..]));
    }
  }

  /**
   What the validator never compares: the first transaction pays at most the reward of its height, the
   others at most their inputs.
   */
  ghost predicate Conserving(s: State, b: Block) {
    && b.transactions != []
    && SumOutputs(b.transactions[0].outputs) <= BlockSubsidy(s.height + 1)
    && forall tx :: tx in b.transactions[1..] ==> TxConserves(s.utxo, tx)
  }

  lemma BlockCreates(H: HashFn, s: State, b: Block)
    requires Conserving(s, b)
    ensures SumCreated(CreatedBy(H, b.transactions))
         <= BlockSubsidy(s.height + 1) + SumSpent(s.utxo, BlockInputs(b))
  {
    var tx := b.transactions[0];
    SumOfOutputs(TxidOf(H, tx), tx.outputs, 0);
    TxsConserve(H, s.utxo, b.transactions[1..]);
    SumCreatedAppend(OutputsFrom(TxidOf(H, tx), tx.outputs, 0), CreatedBy(H, b.transactions[1..]));
  }

  // ---------- the bound over every run ----------

  /** Every block a run accepts conserves; refused submissions may be anything. */
  ghost predicate Honest(H: HashFn, s: State, subs: seq<Submission>) {
    subs != [] ==>
      var n := |subs| - 1;
      var t, x := Run(H, s, subs[..n]), subs[n];
      && Honest(H, s, subs[..n])
      && (Accepted(H, t, x.block, x.height, x.now) ==> Conserving(t, x.block))
  }

  lemma AcceptedTotal(H: HashFn, s: State, x: Submission)
    requires Accepted(H, s, x.block, x.height, x.now) && Conserving(s, x.block)
    ensures Total(Step(H, s, x).utxo) <= Total(s.utxo) + BlockSubsidy(s.height + 1)
    ensures Step(H, s, x).height == s.height + 1
  {
    StepExtends(H, s, x);
    AcceptedConnects(H, s, x);
    ConnectConserves(H, s.utxo, x.block);
    BlockCreates(H, s, x.block);
  }

  lemma AcceptedConnects(H: HashFn, s: State, x: Submission)
    requires Accepted(H, s, x.block, x.height, x.now)
    ensures ConnectUtxo(H, s.utxo, x.block).0
  {
  }

  lemma OtherTotal(H: HashFn, s: State, x: Submission)
    requires !Accepted(H, s, x.block, x.height, x.now)
    ensures Total(Step(H, s, x).utxo) <= Total(s.utxo)
  {
    SpendAllTotal(s.utxo, BlockInputs(x.block));
  }

  /** Refused, half-applied and id-repeating blocks included, the coins stay within the schedule. */
  lemma {:induction false} RunBounded(H: HashFn, s: State, subs: seq<Submission>)
    requires Total(s.utxo) <= SupplyUpTo(s.height) && Honest(H, s, subs)
    ensures Total(Run(H, s, subs).utxo) <= SupplyUpTo(Run(H, s, subs).height)
  {
    if subs != [] {
      var n := |subs| - 1;
      var t, x := Run(H, s, subs[..n]), subs[n];
      RunBounded(H, s, subs[..n]);
      if Accepted(H, t, x.block, x.height, x.now) {
        AcceptedTotal(H, t, x);
      } else {
        OtherTotal(H, t, x);
        OtherStep(H, t, x);
      }
    }
  }

  function GenesisOutPoint(H: HashFn): OutPoint { OutPoint(TxidOf(H, GenesisCoinbase()), 0) }

  function Reward(amount: u64, payout: seq<byte>): Entry { Entry(amount, PayTo(payout)) }

  lemma CoinbaseOnlyCreates(H: HashFn, tx: Transaction, e: Entry)
    requires |tx.outputs| == 1 && e == Entry(tx.outputs[0].amount, tx.outputs[0].scriptPubkey)
    ensures CreatedBy(H, [tx]) == [(OutPoint(TxidOf(H, tx), 0), e)]
  {
    assert [tx][1..] == [];
    assert tx.outputs[1..] == [];
    assert CreatedBy(H, []) == [];
    assert OutputsFrom(TxidOf(H, tx), [], 1) == [];
  }

  lemma CoinbaseOnlyConnects(H: HashFn, m: UtxoMap, b: Block, tx: Transaction)
    requires b.transactions == [tx] && |tx.outputs| == 1
    ensures ConnectUtxo(H, m, b)
         == (true, m[OutPoint(TxidOf(H, tx), 0) := Entry(tx.outputs[0].amount, tx.outputs[0].scriptPubkey)])
  {
    var e := Entry(tx.outputs[0].amount, tx.outputs[0].scriptPubkey);
    CoinbaseOnlyCreates(H, tx, e);
    assert b.transactions[1..] == [];
    var c: (OutPoint, Entry) := (OutPoint(TxidOf(H, tx), 0), e);
    assert [c][1..] == [];
    assert Overlay(m, [c]) == Overlay(m[c.0 := c.1], []);
  }

  lemma GenesisCoins(H: HashFn, stored: bool)
    ensures Genesis(H, stored).utxo == map[GenesisOutPoint(H) := Reward(INITIAL_BLOCK_SUBSIDY, Zeros(20))]
  {
    CoinbaseOnlyConnects(H, map[], GenesisBlock(H), GenesisCoinbase());
  }

  /**
   After any honest run the amounts of all coins together are at most what the schedule has issued, which
   is below 10.5 million coins and so below the money limit.
   */
  lemma SupplyNeverExceeded(H: HashFn, stored: bool, subs: seq<Submission>)
    requires Honest(H, Genesis(H, stored), subs)
    ensures var s := Run(H, Genesis(H, stored), subs);
            Total(s.utxo) <= SupplyUpTo(s.height) < SUPPLY_CAP < MAX_MONEY
  {
    var g := Genesis(H, stored);
    GenesisCoins(H, stored);
    TotalWith(map[], GenesisOutPoint(H), Reward(INITIAL_BLOCK_SUBSIDY, Zeros(20)));
    assert SupplyUpTo(0) == INITIAL_BLOCK_SUBSIDY;
    RunBounded(H, g, subs);
    SupplyBounded(Run(H, g, subs).height);
  }
}
