/** Where the coins a chain pays out but does not hold have gone, and what rewards do to each other. */
module SupplyLedger {
  import opened Bytes
  import opened Types
  import opened Txid
  import opened Merkle
  import opened Consensus
  import opened Subsidy
  import opened Utxo
  import opened Chain
  import opened ChainRuns
  import opened Supply

  // ---------- the ledger of a run ----------

  /**
   What the first transactions of accepted blocks paid, what the others left over, what outputs replaced,
   and what refused blocks spent.
   */
  datatype Ledger = Ledger(paid: nat, fees: int, replaced: nat, burnt: nat)
  {
    function Plus(l: Ledger): Ledger {
      Ledger(paid + l.paid, fees + l.fees, replaced + l.replaced, burnt + l.burnt)
    }
  }

  function AllOutputs(txs: seq<Transaction>): nat {
    if txs == [] then 0 else SumOutputs(txs[0].outputs) + AllOutputs(txs[1..])
  }

  function RewardPaid(b: Block): nat {
    if b.transactions == [] then 0 else SumOutputs(b.transactions[0].outputs)
  }

  /** What the transactions after the first leave over of the coins they name. */
  function FeesLeft(m: UtxoMap, b: Block): int {
    SumSpent(m, BlockInputs(b)) - if b.transactions == [] then 0 else AllOutputs(b.transactions[1..])
  }

  lemma {:induction false} CreatedSum(H: HashFn, txs: seq<Transaction>)
    ensures SumCreated(CreatedBy(H, txs)) == AllOutputs(txs)
  {
    if txs != [] {
      CreatedSum(H, txs[1..]);
      SumOfOutputs(TxidOf(H, txs[0]), txs[0].outputs, 0);
      SumCreatedAppend(OutputsFrom(TxidOf(H, txs[0]), txs[0].outputs, 0), CreatedBy(H, txs[1..]));
    }
  }

  ghost function StepLedger(H: HashFn, s: State, x: Submission): Ledger {
    if Accepted(H, s, x.block, x.height, x.now) then
      Ledger(RewardPaid(x.block), FeesLeft(s.utxo, x.block), ReplacedBy(H, s.utxo, x.block), 0)
    else
      Ledger(0, 0, 0, if Reaches(H, s, x) then SpentUntilMissing(s.utxo, BlockInputs(x.block)) else 0)
  }

  ghost function RunLedger(H: HashFn, s: State, subs: seq<Submission>): Ledger {
    if subs == [] then Ledger(0, 0, 0, 0) else
    var n := |subs| - 1;
    RunLedger(H, s, subs[..n]).Plus(StepLedger(H, Run(H, s, subs[..n]), subs[n]))
  }

  /** The coins before and after add up. */
  ghost predicate Balances(before: UtxoMap, after: UtxoMap, l: Ledger) {
    Total(after) + l.fees + l.replaced + l.burnt == Total(before) + l.paid
  }

  lemma ConnectBalances(H: HashFn, m: UtxoMap, b: Block)
    requires ConnectUtxo(H, m, b).0
    ensures Balances(m, ConnectUtxo(H, m, b).1, Ledger(RewardPaid(b), FeesLeft(m, b), ReplacedBy(H, m, b), 0))
  {
    ConnectConserves(H, m, b);
    CreatedSum(H, b.transactions);
  }

  lemma FailedConnectBalances(H: HashFn, m: UtxoMap, b: Block)
    requires !ConnectUtxo(H, m, b).0
    ensures Balances(m, ConnectUtxo(H, m, b).1, Ledger(0, 0, 0, SpentUntilMissing(m, BlockInputs(b))))
  {
    SpendAllTotal(m, BlockInputs(b));
  }

  /** A block that passes the guards and is not accepted fails in the coins. */
  lemma ReachedStep(H: HashFn, s: State, x: Submission)
    requires Reaches(H, s, x)
    ensures Step(H, s, x).utxo == ConnectUtxo(H, s.utxo, x.block).1
    ensures Accepted(H, s, x.block, x.height, x.now) <==> ConnectUtxo(H, s.utxo, x.block).0
  {
  }

  lemma UnreachedStep(H: HashFn, s: State, x: Submission)
    requires !Reaches(H, s, x)
    ensures Step(H, s, x).utxo == s.utxo
  {
  }

  lemma StepBalances(H: HashFn, s: State, x: Submission)
    ensures Balances(s.utxo, Step(H, s, x).utxo, StepLedger(H, s, x))
  {
    AcceptedExactly(H, s, x);
    if Reaches(H, s, x) {
      ReachedStep(H, s, x);
      if ConnectUtxo(H, s.utxo, x.block).0 {
        ConnectBalances(H, s.utxo, x.block);
      } else {
        FailedConnectBalances(H, s.utxo, x.block);
      }
    } else {
      UnreachedStep(H, s, x);
    }
  }

  lemma BalancesAdd(a: UtxoMap, b: UtxoMap, c: UtxoMap, l: Ledger, k: Ledger)
    requires Balances(a, b, l) && Balances(b, c, k)
    ensures Balances(a, c, l.Plus(k))
  {
  }

  /** Over every run, honest or not, what is missing of the amounts paid is fees, replaced and burnt coins. */
  lemma {:induction false} RunBalances(H: HashFn, s: State, subs: seq<Submission>)
    ensures Balances(s.utxo, Run(H, s, subs).utxo, RunLedger(H, s, subs))
  {
    if subs != [] {
      var n := |subs| - 1;
      var t := Run(H, s, subs[..n]);
      RunBalances(H, s, subs[..n]);
      StepBalances(H, t, subs[n]);
      BalancesAdd(s.utxo, t.utxo, Step(H, t, subs[n]).utxo, RunLedger(H, s, subs[..n]), StepLedger(H, t, subs[n]));
    }
  }

  lemma ConservingLedger(H: HashFn, s: State, b: Block)
    requires Conserving(s, b)
    ensures FeesLeft(s.utxo, b) >= 0 && RewardPaid(b) <= BlockSubsidy(s.height + 1)
  {
    TxsConserve(H, s.utxo, b.transactions[1..]);
    CreatedSum(H, b.transactions[1..]);
  }

  lemma StepHeight(H: HashFn, s: State, x: Submission)
    ensures Step(H, s, x).height == s.height + if Accepted(H, s, x.block, x.height, x.now) then 1 else 0
  {
    if Accepted(H, s, x.block, x.height, x.now) {
      StepExtends(H, s, x);
    } else {
      OtherStep(H, s, x);
    }
  }

  /** An honest run keeps no negative fees and pays no more than the schedule. */
  lemma {:induction false} HonestLedger(H: HashFn, s: State, subs: seq<Submission>)
    requires Honest(H, s, subs)
    ensures RunLedger(H, s, subs).fees >= 0
    ensures SupplyUpTo(s.height) + RunLedger(H, s, subs).paid <= SupplyUpTo(Run(H, s, subs).height)
  {
    if subs != [] {
      var n := |subs| - 1;
      var t, x := Run(H, s, subs[..n]), subs[n];
      HonestLedger(H, s, subs[..n]);
      StepHeight(H, t, x);
      if Accepted(H, t, x.block, x.height, x.now) {
        ConservingLedger(H, t, x.block);
      }
    }
  }

  /** Without repeated outpoints in a submitted block nothing is burnt. */
  lemma {:induction false} DistinctBurnsNothing(H: HashFn, s: State, subs: seq<Submission>)
    requires forall x :: x in subs ==> Distinct(BlockInputs(x.block))
    ensures RunLedger(H, s, subs).burnt == 0
  {
    if subs != [] {
      var n := |subs| - 1;
      DistinctBurnsNothing(H, s, subs[..n]);
      AcceptedExactly(H, Run(H, s, subs[..n]), subs[n]);
    }
  }

  /**
   After an honest run the coins fall short of the issued total by exactly the rewards not claimed, the
   fees no reward took up, the replaced coins and those refused blocks burnt; so they reach it exactly
   when there were none of these.
   */
  lemma SupplyGapExact(H: HashFn, stored: bool, subs: seq<Submission>)
    requires Honest(H, Genesis(H, stored), subs)
    ensures var s, l := Run(H, Genesis(H, stored), subs), RunLedger(H, Genesis(H, stored), subs);
            var unclaimed := SupplyUpTo(s.height) - (INITIAL_BLOCK_SUBSIDY + l.paid);
            && unclaimed >= 0 && l.fees >= 0
            && Total(s.utxo) + (unclaimed + l.fees + l.replaced + l.burnt) == SupplyUpTo(s.height)
            && (Total(s.utxo) == SupplyUpTo(s.height)
                <==> unclaimed == 0 && l.fees == 0 && l.replaced == 0 && l.burnt == 0)
  {
    var g := Genesis(H, stored);
    GenesisTotal(H, stored);
    HonestLedger(H, g, subs);
    RunBalances(H, g, subs);
  }

  lemma GenesisTotal(H: HashFn, stored: bool)
    ensures Total(Genesis(H, stored).utxo) == INITIAL_BLOCK_SUBSIDY == SupplyUpTo(Genesis(H, stored).height)
  {
    GenesisCoins(H, stored);
    TotalWith(map[], GenesisOutPoint(H), Reward(INITIAL_BLOCK_SUBSIDY, Zeros(20)));
    assert SupplyUpTo(0) == INITIAL_BLOCK_SUBSIDY;
  }

  // ---------- rewards that replace each other ----------

  lemma CoinbaseCore(script: seq<byte>, amount: u64, payout: seq<byte>)
    ensures CoreOf(Coinbase(script, amount, payout))
         == Core(1, [OutPoint(ZERO_HASH, 0xffff_ffff)], [TxOutput(amount, PayTo(payout))], 0)
  {
    assert Spends([CoinbaseInput(script)]) == [OutPoint(ZERO_HASH, 0xffff_ffff)];
  }

  /**
   Two rewards hash the same bytes for their ids exactly when they pay one amount to one script: the
   coinbase script, where the miner puts the height, is not part of them.
   */
  lemma CoinbasePreimageExact(a: seq<byte>, x: u64, p: seq<byte>, b: seq<byte>, y: u64, q: seq<byte>)
    ensures Preimage(Coinbase(a, x, p)) == Preimage(Coinbase(b, y, q)) <==> x == y && PayTo(p) == PayTo(q)
  {
    CoinbaseCore(a, x, p);
    CoinbaseCore(b, y, q);
    var c, d := CoreOf(Coinbase(a, x, p)), CoreOf(Coinbase(b, y, q));
    assert |PayTo(p)| == 25 && |PayTo(q)| == 25;
    if CoreBytes(c) == CoreBytes(d) {
      CoreBytesInjective(c, d);
      assert c.outputs[0] == d.outputs[0];
    }
  }

  /** So they share an id exactly then, or their hashed bytes collide. */
  lemma RewardIdsExact(H: HashFn, a: seq<byte>, x: u64, p: seq<byte>, b: seq<byte>, y: u64, q: seq<byte>)
    ensures TxidOf(H, Coinbase(a, x, p)) == TxidOf(H, Coinbase(b, y, q))
       <==> (x == y && PayTo(p) == PayTo(q))
            || Collide(H, Preimage(Coinbase(a, x, p)), Preimage(Coinbase(b, y, q)))
  {
    CoinbasePreimageExact(a, x, p, b, y, q);
  }

  /** A block of one transaction with one output, as the miner builds over an empty pool. */
  predicate RewardOnly(b: Block) { |b.transactions| == 1 && |b.transactions[0].outputs| == 1 }

  function RewardCoin(H: HashFn, b: Block): (OutPoint, Entry)
    requires RewardOnly(b)
  {
    var tx := b.transactions[0];
    (OutPoint(TxidOf(H, tx), 0), Entry(tx.outputs[0].amount, tx.outputs[0].scriptPubkey))
  }

  /** It replaces exactly the coin with its transaction's id, if there is one. */
  lemma RewardReplacesExactly(H: HashFn, m: UtxoMap, b: Block)
    requires RewardOnly(b)
    ensures ConnectUtxo(H, m, b) == (true, m[RewardCoin(H, b).0 := RewardCoin(H, b).1])
    ensures BlockInputs(b) == [] && ReplacedBy(H, m, b) == AmountOf(m, RewardCoin(H, b).0)
  {
    var tx, c := b.transactions[0], RewardCoin(H, b);
    assert b.transactions == [tx] && b.transactions[1..] == [];
    CoinbaseOnlyConnects(H, m, b, tx);
    CoinbaseOnlyCreates(H, tx, c.1);
    ReplacedByOne(m, c);
  }

  lemma ReplacedByOne(m: UtxoMap, c: (OutPoint, Entry))
    ensures Replaced(m, [c]) == AmountOf(m, c.0)
  {
    assert [c][1..] == [];
    assert Replaced(m[c.0 := c.1], []) == 0;
  }

  function RewardCoins(H: HashFn, bs: seq<Block>): (cs: seq<(OutPoint, Entry)>)
    requires forall b :: b in bs ==> RewardOnly(b)
    ensures |cs| == |bs| && forall i :: 0 <= i < |bs| ==> cs[i] == RewardCoin(H, bs[i])
  {
    if bs == [] then [] else RewardCoins(H, bs[..|bs| - 1]) + [RewardCoin(H, bs[|bs| - 1])]
  }

  lemma {:induction false} OverlayLast(m: UtxoMap, created: seq<(OutPoint, Entry)>, c: (OutPoint, Entry))
    ensures Overlay(m, created + [c]) == Overlay(m, created)[c.0 := c.1]
    decreases |created|
  {
    if created == [] {
      assert ([] + [c])[1..] == [] && ([] + [c])[0] == c;
    } else {
      assert (created + [c])[1..] == created[1..] + [c];
      OverlayLast(m[created[0].0 := created[0].1], created[1..], c);
    }
  }

  /** Connecting the block puts this coin and does nothing else. */
  ghost predicate Puts(H: HashFn, b: Block, c: (OutPoint, Entry)) {
    forall m: UtxoMap :: ConnectUtxo(H, m, b).1 == m[c.0 := c.1]
  }

  lemma ReplayPut(H: HashFn, before: seq<Block>, b: Block, c: (OutPoint, Entry))
    requires Puts(H, b, c)
    ensures Replay(H, before + [b]) == Replay(H, before)[c.0 := c.1]
  {
    ReplayOne(H, before, b);
    assert ConnectUtxo(H, Replay(H, before), b).1 == Replay(H, before)[c.0 := c.1];
  }

  lemma LastApart<T>(front: seq<T>, s: seq<T>)
    requires s != []
    ensures front + s == front + s[..|s| - 1] + [s[|s| - 1]]
    ensures s == s[..|s| - 1] + [s[|s| - 1]]
  {
  }

  /** Blocks that each put one coin overlay their coins one after another. */
  lemma {:induction false} CoinsOverlay(H: HashFn, base: seq<Block>, bs: seq<Block>, coins: seq<(OutPoint, Entry)>)
    requires |coins| == |bs| && forall i :: 0 <= i < |bs| ==> Puts(H, bs[i], coins[i])
    ensures Replay(H, base + bs) == Overlay(Replay(H, base), coins)
    decreases |bs|
  {
    if bs == [] {
      assert base + bs == base;
    } else {
      var n := |bs| - 1;
      var before := base + bs[..n];
      CoinsOverlay(H, base, bs[..n], coins[..n]);
      LastApart(base, bs);
      LastApart(coins, coins);
      ReplayPut(H, before, bs[n], coins[n]);
      OverlayLast(Replay(H, base), coins[..n], coins[n]);
    }
  }

  lemma RewardsOverlay(H: HashFn, base: seq<Block>, bs: seq<Block>)
    requires forall b :: b in bs ==> RewardOnly(b)
    ensures Replay(H, base + bs) == Overlay(Replay(H, base), RewardCoins(H, bs))
  {
    var coins := RewardCoins(H, bs);
    forall i | 0 <= i < |bs|
      ensures Puts(H, bs[i], coins[i])
    {
      forall m: UtxoMap
        ensures ConnectUtxo(H, m, bs[i]).1 == m[coins[i].0 := coins[i].1]
      {
        RewardReplacesExactly(H, m, bs[i]);
      }
    }
    CoinsOverlay(H, base, bs, coins);
  }

  lemma ReplayGenesis(H: HashFn, stored: bool)
    ensures Replay(H, [GenesisBlock(H)]) == Genesis(H, stored).utxo
  {
    ReplayOne(H, [], GenesisBlock(H));
    assert [] + [GenesisBlock(H)] == [GenesisBlock(H)];
  }

  /**
   A chain of reward-only blocks of any amounts and payouts holds the genesis coin overlaid by theirs: as
   many coins as there are different ids among them, whatever its height.
   */
  lemma RewardChainCoins(H: HashFn, stored: bool, subs: seq<Submission>, rewards: seq<Block>)
    requires forall x :: x in subs ==> Distinct(BlockInputs(x.block))
    requires ChainOf(H, stored, subs) == [GenesisBlock(H)] + rewards
    requires forall b :: b in rewards ==> RewardOnly(b)
    ensures var s := Run(H, Genesis(H, stored), subs);
            && s.utxo == Overlay(Genesis(H, stored).utxo, RewardCoins(H, rewards))
            && s.utxo.Keys == {GenesisOutPoint(H)} + Ops(RewardCoins(H, rewards))
  {
    CoinsAreReplay(H, stored, subs);
    RewardsOverlay(H, [GenesisBlock(H)], rewards);
    ReplayGenesis(H, stored);
    GenesisOverlaid(H, stored, RewardCoins(H, rewards));
  }

  lemma GenesisOverlaid(H: HashFn, stored: bool, coins: seq<(OutPoint, Entry)>)
    ensures Overlay(Genesis(H, stored).utxo, coins).Keys == {GenesisOutPoint(H)} + Ops(coins)
  {
    GenesisCoins(H, stored);
    OverlayExact(Genesis(H, stored).utxo, coins);
  }

  function RewardOutPoint(H: HashFn, amount: u64, payout: seq<byte>): OutPoint {
    OutPoint(TxidOf(H, Coinbase([], amount, payout)), 0)
  }

  /** The block pays one reward to one key hash, whatever its coinbase script says. */
  ghost predicate PaysReward(b: Block, amount: u64, payout: seq<byte>) {
    exists script :: b.transactions == [Coinbase(script, amount, payout)]
  }

  lemma RewardCoinOf(H: HashFn, b: Block, amount: u64, payout: seq<byte>)
    requires PaysReward(b, amount, payout)
    ensures RewardOnly(b) && RewardCoin(H, b) == (RewardOutPoint(H, amount, payout), Reward(amount, payout))
  {
    var script :| b.transactions == [Coinbase(script, amount, payout)];
    CoinbasePreimageExact(script, amount, payout, [], amount, payout);
  }

  lemma {:induction false} SameCoinOverlay(m: UtxoMap, cs: seq<(OutPoint, Entry)>, c: (OutPoint, Entry))
    requires cs != [] && forall i :: 0 <= i < |cs| ==> cs[i] == c
    ensures Overlay(m, cs) == m[c.0 := c.1]
    decreases |cs|
  {
    var rest := cs[1..];
    assert Overlay(m, cs) == Overlay(m[c.0 := c.1], rest);
    if rest != [] {
      SameCoinOverlay(m[c.0 := c.1], rest, c);
    }
  }

  /**
   In particular a chain of blocks that only pay one key hash the same reward holds that reward once,
   beside the genesis coin, at every height: the schedule's total is issued on paper only.
   */
  lemma MinedRewardsCollapse(H: HashFn, stored: bool, subs: seq<Submission>, rewards: seq<Block>,
                             amount: u64, payout: seq<byte>)
    requires forall x :: x in subs ==> Distinct(BlockInputs(x.block))
    requires ChainOf(H, stored, subs) == [GenesisBlock(H)] + rewards && rewards != []
    requires forall b :: b in rewards ==> PaysReward(b, amount, payout)
    ensures Run(H, Genesis(H, stored), subs).utxo ==
              map[GenesisOutPoint(H) := Reward(INITIAL_BLOCK_SUBSIDY, Zeros(20)),
                  RewardOutPoint(H, amount, payout) := Reward(amount, payout)]
  {
    var c := (RewardOutPoint(H, amount, payout), Reward(amount, payout));
    SameRewardCoins(H, rewards, amount, payout);
    RewardChainCoins(H, stored, subs, rewards);
    SameCoinOverlay(Genesis(H, stored).utxo, RewardCoins(H, rewards), c);
    GenesisCoins(H, stored);
  }

  lemma SameRewardCoins(H: HashFn, rewards: seq<Block>, amount: u64, payout: seq<byte>)
    requires forall b :: b in rewards ==> PaysReward(b, amount, payout)
    ensures forall b :: b in rewards ==> RewardOnly(b)
    ensures forall i :: 0 <= i < |rewards| ==>
              RewardCoins(H, rewards)[i] == (RewardOutPoint(H, amount, payout), Reward(amount, payout))
  {
    forall b | b in rewards
      ensures RewardOnly(b) && RewardCoin(H, b) == (RewardOutPoint(H, amount, payout), Reward(amount, payout))
    {
      RewardCoinOf(H, b, amount, payout);
    }
  }
}
