/** One round of the mining loop: the block it builds, and what the chain makes of it. */
module MiningLoop {
  import opened Bytes
  import opened Types
  import opened Codec
  import opened Merkle
  import opened ProofOfWork
  import opened Consensus
  import opened Difficulty
  import opened Subsidy
  import opened Utxo
  import opened Chain
  import opened ChainRuns
  import opened Supply
  import Miner

  /**
   The reward of the next height to the payout hash, the height in its script; then the pool. The
   program always mines at EASY_MINE_DIFFICULTY; the results hold for any target.
   */
  function Template(s: State, target: u32, payout: seq<byte>, pool: seq<Transaction>, now: u64): Block {
    var height := s.height + 1;
    Block(BlockHeader(1, s.best, ZERO_HASH, now, target, 0),
          [Coinbase(VarInt(height), BlockSubsidy(height), payout)] + pool)
  }

  /** What the first transaction of the template is, field by field, and what its header asks for. */
  lemma TemplatePays(s: State, target: u32, payout: seq<byte>, pool: seq<Transaction>, now: u64)
    ensures var t := Template(s, target, payout, pool, now);
            var reward := t.transactions[0];
            && t.transactions[1..] == pool && reward.version == 1 && reward.lockTime == 0
            && reward.outputs == [TxOutput(BlockSubsidy(s.height + 1), PayTo(payout))]
            && |reward.inputs| == 1 && reward.inputs[0].prevTxHash == Zeros(32)
            && reward.inputs[0].outputIndex == 0xffff_ffff && reward.inputs[0].pubkey == []
            && t.header.version == 1 && t.header.previousHash == s.best
            && t.header.timestamp == now && t.header.difficultyTarget == target
    ensures s.height + 1 < 0x8000_0000 ==>
              ParseVarInt(Template(s, target, payout, pool, now).transactions[0].inputs[0].signature)
              == Done(s.height + 1, [])
  {
    if s.height + 1 < 0x8000_0000 {
      ParsePrintedVarInt(s.height + 1, []);
      assert VarInt(s.height + 1) + [] == VarInt(s.height + 1);
    }
  }

  /** A block the search may return for a template. */
  ghost predicate MinedFor(H: HashFn, template: Block, target: u32, mined: Block) {
    && mined.transactions == template.transactions
    && mined.header == Miner.Candidate(H, template, target, mined.header.nonce)
    && HasWork(H, mined.header)
  }

  lemma MinedStructure(H: HashFn, template: Block, target: u32, mined: Block, now: u64)
    requires MinedFor(H, template, target, mined) && Mantissa(target) != 0
    requires template.header.timestamp == now && now + FUTURE_LIMIT < 0x1_0000_0000_0000_0000
    requires template.transactions != [] && template.transactions[0].IsCoinbase()
    ensures ValidStructure(H, mined, now)
    ensures mined.header.previousHash == template.header.previousHash && mined.header.difficultyTarget == target
  {
    assert mined.header.merkleRoot == MerkleRoot(H, mined.transactions);
    assert mined.header.timestamp == now;
  }

  lemma TemplateShape(s: State, target: u32, payout: seq<byte>, pool: seq<Transaction>, now: u64)
    ensures var t := Template(s, target, payout, pool, now);
            && t.header.timestamp == now && t.header.previousHash == s.best
            && t.transactions != [] && t.transactions[0].IsCoinbase() && t.transactions[1..] == pool
  {
  }

  /** No target is prescribed, or this one. */
  predicate TargetDue(s: State, target: u32) { ExpectedTarget(s) == None || ExpectedTarget(s) == Some(target) }

  lemma ValidTaken(H: HashFn, s: State, b: Block, now: u64)
    requires ValidStructure(H, b, now) && b.header.previousHash == s.best
    ensures AddBlock(H, s, b, s.height + 1, now).0 <==>
              || BlockHash(H, b) in s.cache
              || (DifficultyOk(s, b.header) && TransactionsOk(s.utxo, b.transactions) && Distinct(BlockInputs(b)))
  {
    AcceptedExactly(H, s, Submission(b, s.height + 1, now));
  }

  lemma MinedTaken(H: HashFn, s: State, template: Block, target: u32, now: u64, mined: Block)
    requires MinedFor(H, template, target, mined) && Mantissa(target) != 0
    requires template.header.timestamp == now && now + FUTURE_LIMIT < 0x1_0000_0000_0000_0000
    requires template.transactions != [] && template.transactions[0].IsCoinbase()
    requires template.header.previousHash == s.best
    ensures AddBlock(H, s, mined, s.height + 1, now).0 <==>
              || BlockHash(H, mined) in s.cache
              || (&& TargetDue(s, target) && TransactionsOk(s.utxo, template.transactions)
                  && Distinct(BlockInputs(template)))
  {
    MinedStructure(H, template, target, mined, now);
    ValidTaken(H, s, mined, now);
    assert DifficultyOk(s, mined.header) <==> TargetDue(s, target);
    assert BlockInputs(mined) == BlockInputs(template);
  }

  /**
   The chain takes a block the miner found exactly when it has it already, or no other target is
   prescribed and the pool's transactions are well formed, spend coins of the set and none twice.
   */
  lemma MinedBlockTakenExactly(H: HashFn, s: State, target: u32, payout: seq<byte>, pool: seq<Transaction>,
                               now: u64, mined: Block)
    requires MinedFor(H, Template(s, target, payout, pool, now), target, mined) && Mantissa(target) != 0
    requires now + FUTURE_LIMIT < 0x1_0000_0000_0000_0000
    ensures AddBlock(H, s, mined, s.height + 1, now).0 <==>
              || BlockHash(H, mined) in s.cache
              || (&& TargetDue(s, target)
                  && TransactionsOk(s.utxo, Template(s, target, payout, pool, now).transactions)
                  && Distinct(InputsOf(pool)))
  {
    TemplateShape(s, target, payout, pool, now);
    MinedTaken(H, s, Template(s, target, payout, pool, now), target, now, mined);
  }

  /**
   So the first transaction of a mined block pays the reward of the next height to the payout hash, and its
   input script reads as that height; only root and nonce of the header are the search's.
   */
  lemma MinedBlockPays(H: HashFn, s: State, target: u32, payout: seq<byte>, pool: seq<Transaction>,
                       now: u64, mined: Block)
    requires MinedFor(H, Template(s, target, payout, pool, now), target, mined)
    ensures |mined.transactions| == 1 + |pool| && mined.transactions[1..] == pool
    ensures mined.transactions[0].outputs == [TxOutput(BlockSubsidy(s.height + 1), PayTo(payout))]
    ensures s.height + 1 < 0x8000_0000 ==>
              |mined.transactions[0].inputs| == 1
              && ParseVarInt(mined.transactions[0].inputs[0].signature) == Done(s.height + 1, [])
    ensures mined.header == BlockHeader(1, s.best, MerkleRoot(H, mined.transactions), now, target, mined.header.nonce)
  {
    TemplatePays(s, target, payout, pool, now);
  }

  /** The reward is what the schedule allows, so only the pool decides whether the block conserves. */
  lemma MinedBlockConserves(H: HashFn, s: State, target: u32, payout: seq<byte>, pool: seq<Transaction>,
                            now: u64, mined: Block)
    requires MinedFor(H, Template(s, target, payout, pool, now), target, mined)
    ensures Conserving(s, mined) <==> forall tx :: tx in pool ==> TxConserves(s.utxo, tx)
  {
    TemplateShape(s, target, payout, pool, now);
    var reward := mined.transactions[0];
    assert reward.outputs[..0] == [];
    assert SumOutputs(reward.outputs) == BlockSubsidy(s.height + 1);
  }

  /** On a chain the miner alone has built, the prescribed target stays the easy one up to height 2015. */
  lemma EasyTargetExpected(hash: Block -> Hash, s: State, bs: seq<Block>)
    requires Holds(hash, s, bs) && s.height < 2015
    requires forall h :: 1 <= h < |bs| ==> bs[h].header.difficultyTarget == EASY_MINE_DIFFICULTY
    ensures ExpectedTarget(s) == (if s.height == 0 then None else Some(EASY_MINE_DIFFICULTY))
    ensures TargetDue(s, EASY_MINE_DIFFICULTY)
  {
    ChainedBlockAt(hash, s, bs, s.height);
  }
}
