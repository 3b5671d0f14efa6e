/** Runs that show which promises need their hypotheses: for every hash function, then concrete ones. */
module ChainWitnesses {
  import opened Bytes
  import opened Types
  import opened Codec
  import opened Txid
  import opened Merkle
  import opened ProofOfWork
  import opened Consensus
  import opened Utxo
  import opened Chain
  import opened ChainRuns
  import opened Supply
  import opened SupplyLedger

  // ---------- for every hash function ----------

  /** What a block on top of a state needs besides its transactions: work and a header in order. */
  ghost predicate Ready(H: HashFn, s: State, b: Block, now: u64) {
    && BlockHash(H, b) !in s.cache && b.header.previousHash == s.best
    && ValidStructure(H, b, now) && DifficultyOk(s, b.header)
  }

  /** A reward of any amount at all is accepted once the header has work. */
  lemma AnyRewardAccepted(H: HashFn, s: State, b: Block, now: u64)
    requires Ready(H, s, b, now) && RewardOnly(b)
    ensures Accepted(H, s, b, s.height + 1, now)
    ensures Step(H, s, Submission(b, s.height + 1, now)).height == s.height + 1
    ensures Step(H, s, Submission(b, s.height + 1, now)).utxo == s.utxo[RewardCoin(H, b).0 := RewardCoin(H, b).1]
    ensures Total(Step(H, s, Submission(b, s.height + 1, now)).utxo) >= b.transactions[0].outputs[0].amount
  {
    var x := Submission(b, s.height + 1, now);
    RewardReplacesExactly(H, s.utxo, b);
    assert Reaches(H, s, x);
    AcceptedExactly(H, s, x);
    StepExtends(H, s, x);
    TotalWith(s.utxo, RewardCoin(H, b).0, RewardCoin(H, b).1);
  }

  /** A transaction that names one coin twice, and pays an empty output. */
  function SpendingTwice(op: OutPoint): Transaction {
    var again := TxInput(op.hash, op.index, [], []);
    Transaction(1, [again, again], [TxOutput(0, [])], 0)
  }

  lemma TwiceNamed(b: Block, op: OutPoint)
    requires |b.transactions| == 2 && b.transactions[1] == SpendingTwice(op)
    ensures BlockInputs(b) == [op, op]
  {
    var tx := SpendingTwice(op);
    assert b.transactions[1..] == [tx];
    assert InputsOf([tx]) == Spends(tx.inputs) + InputsOf([tx][1..]);
    assert [tx][1..] == [] && InputsOf([]) == [];
    assert Spends(tx.inputs) == [op, op];
  }

  lemma TwicePasses(m: UtxoMap, txs: seq<Transaction>, op: OutPoint)
    requires |txs| == 2 && txs[1] == SpendingTwice(op) && op in m
    ensures TransactionsOk(m, txs)
  {
    var tx := SpendingTwice(op);
    assert tx.outputs[..0] == [];
    assert ValidTransaction(tx);
    forall o | o in AsSet(Spends(tx.inputs))
      ensures o in m
    {
    }
  }

  /** A refused block is not without effect: whichever coin it names twice is gone afterwards. */
  lemma RefusedBlockSpends(H: HashFn, s: State, b: Block, op: OutPoint, now: u64)
    requires Ready(H, s, b, now) && op in s.utxo
    requires |b.transactions| == 2 && b.transactions[1] == SpendingTwice(op)
    ensures !AddBlock(H, s, b, s.height + 1, now).0
    ensures Step(H, s, Submission(b, s.height + 1, now)).utxo == s.utxo - {op}
  {
    var x := Submission(b, s.height + 1, now);
    TwiceNamed(b, op);
    TwicePasses(s.utxo, b.transactions, op);
    assert Reaches(H, s, x);
    AcceptedExactly(H, s, x);
    ReachedStep(H, s, x);
    SpendTwice(s.utxo, op);
  }

  lemma SpendTwice(m: UtxoMap, op: OutPoint)
    requires op in m
    ensures SpendAll(m, [op, op]) == (false, m - {op})
  {
    assert [op, op][1..] == [op];
  }

  // ---------- for one hash function ----------

  const ONE: Hash := [1] + Zeros(31)

  /** A hash that is zero but for 80-byte headers with nonce 1, which hash to one. */
  function ToyHash(x: seq<byte>): Hash {
    if |x| == 80 && x[76] == 1 then ONE else ZERO_HASH
  }

  lemma HeaderNonceByte(h: BlockHeader)
    ensures HashedHeader(h)[76] == h.nonce % 256
  {
    var tail := LE(h.nonce, 4);
    assert HashedHeader(h)[76..] == tail;
    assert tail == [h.nonce % 256] + LE(h.nonce / 256, 3);
    assert HashedHeader(h)[76..][0] == HashedHeader(h)[76];
  }

  lemma ToyHeaderHash(h: BlockHeader)
    ensures HeaderHash(ToyHash, h) == if h.nonce % 256 == 1 then ONE else ZERO_HASH
  {
    HeaderNonceByte(h);
  }

  lemma ToyWork(h: BlockHeader)
    requires h.nonce == 1 && Word(h.difficultyTarget) == 0xffff && Shift(h.difficultyTarget) == 26
    ensures HasWork(ToyHash, h)
  {
    ToyHeaderHash(h);
    var t := Target(h.difficultyTarget);
    TargetBytes(h.difficultyTarget);
    assert t[31 - 26] == Placed(0xffff, 26, 26) == 255;
    if FromLE(t) == 0 {
      ZeroBytes(32);
      FromLELE(0, 32);
      FromLEInjective(t, Zeros(32));
    }
    FromLEOfOne();
  }

  lemma FromLEOfOne()
    ensures FromLE(ONE) == 1
  {
    assert ONE[1..] == Zeros(31);
    ZeroBytes(31);
    FromLELE(0, 31);
  }

  lemma OneInputLength(tx: Transaction)
    requires |tx.outputs| == 1
    ensures |Preimage(tx)| == 19 + 36 * |tx.inputs| + |tx.outputs[0].scriptPubkey|
  {
    SpendsLength(Spends(tx.inputs));
    assert tx.outputs[1..] == [];
    assert PrintAll(ShortOutputBytes, tx.outputs) == ShortOutputBytes(tx.outputs[0]) + [];
  }

  /** The genesis coinbase has an 80-byte preimage, but byte 76 is the low byte of its lock time. */
  lemma GenesisToyId()
    ensures TxidOf(ToyHash, GenesisCoinbase()) == ZERO_HASH
  {
    var tx := GenesisCoinbase();
    OneInputLength(tx);
    var c := CoreOf(tx);
    var head := LE(c.version, 4) + ([|c.spends| % 256] + (PrintAll(OutPointBytes, c.spends)
                + ([|c.outputs| % 256] + PrintAll(ShortOutputBytes, c.outputs))));
    assert CoreBytes(c) == head + LE(0, 4);
    assert |head| == 76;
    ZeroBytes(4);
    assert Preimage(tx)[76] == LE(0, 4)[0];
  }

  lemma ShortToyId(tx: Transaction)
    requires |tx.outputs| == 1 && tx.outputs[0].scriptPubkey == []
    requires |tx.inputs| == 1 || |tx.inputs| == 2
    ensures TxidOf(ToyHash, tx) == ZERO_HASH
  {
    OneInputLength(tx);
  }

  lemma ToyGenesis()
    ensures Genesis(ToyHash, false).best == ZERO_HASH && Genesis(ToyHash, false).height == 0
    ensures ONE !in Genesis(ToyHash, false).cache
    ensures Genesis(ToyHash, false).utxo == map[OutPoint(ZERO_HASH, 0) := Reward(INITIAL_BLOCK_SUBSIDY, Zeros(20))]
  {
    GenesisCoins(ToyHash, false);
    GenesisToyId();
    ToyStart(GenesisBlock(ToyHash));
  }

  lemma ToyStart(g: Block)
    requires g.header.nonce == 0
    ensures Start(ToyHash, g, false).best == ZERO_HASH && Start(ToyHash, g, false).height == 0
    ensures ONE !in Start(ToyHash, g, false).cache
  {
    ToyHeaderHash(g.header);
    assert ONE[0] == 1 && ZERO_HASH[0] == 0;
  }

  function ToyHeader(): BlockHeader { BlockHeader(1, ZERO_HASH, ZERO_HASH, 0, 0x1d00ffff, 1) }

  /** The fields of the toy header, without its literal. */
  ghost predicate ToyShaped(h: BlockHeader) {
    && h.previousHash == ZERO_HASH && h.merkleRoot == ZERO_HASH && h.timestamp == 0 && h.nonce == 1
    && Mantissa(h.difficultyTarget) == Word(h.difficultyTarget) == 0xffff && Shift(h.difficultyTarget) == 26
  }

  lemma ToyHeaderShaped()
    ensures ToyShaped(ToyHeader())
  {
  }

  lemma ToyValid(b: Block)
    requires ToyShaped(b.header) && b.transactions != [] && b.transactions[0].IsCoinbase()
    requires MerkleRoot(ToyHash, b.transactions) == ZERO_HASH
    ensures ValidStructure(ToyHash, b, 0)
  {
    ToyWork(b.header);
  }

  lemma ToyReady(s: State, b: Block)
    requires s.height == 0 && s.best == ZERO_HASH && ONE !in s.cache
    requires ToyShaped(b.header) && b.transactions != [] && b.transactions[0].IsCoinbase()
    requires MerkleRoot(ToyHash, b.transactions) == ZERO_HASH
    ensures Ready(ToyHash, s, b, 0)
  {
    ToyValid(b);
    ToyBlockHash(b);
    FirstBlockFree(s, b.header);
  }

  lemma ToyBlockHash(b: Block)
    requires b.header.nonce == 1
    ensures BlockHash(ToyHash, b) == ONE
  {
    ToyHeaderHash(b.header);
  }

  /** No target is prescribed on top of genesis. */
  lemma FirstBlockFree(s: State, h: BlockHeader)
    requires s.height == 0
    ensures DifficultyOk(s, h)
  {
  }

  /** A coinbase with an empty script. */
  function Minting(amount: u64): Transaction {
    Transaction(1, [CoinbaseInput([])], [TxOutput(amount, [])], 0)
  }

  lemma OneTxRoot(tx: Transaction)
    requires |tx.outputs| == 1 && tx.outputs[0].scriptPubkey == [] && |tx.inputs| == 1
    ensures MerkleRoot(ToyHash, [tx]) == ZERO_HASH
  {
    ShortToyId(tx);
    assert Txids(ToyHash, [tx]) == [TxidOf(ToyHash, tx)];
  }

  lemma TwoTxRoot(a: Transaction, b: Transaction)
    requires |a.outputs| == 1 && a.outputs[0].scriptPubkey == [] && |a.inputs| == 1
    requires |b.outputs| == 1 && b.outputs[0].scriptPubkey == [] && |b.inputs| == 2
    ensures MerkleRoot(ToyHash, [a, b]) == ZERO_HASH
  {
    ShortToyId(a);
    ShortToyId(b);
    var ids := Txids(ToyHash, [a, b]);
    TwoLeafRoot(ids);
  }

  lemma TwoLeafRoot(ids: seq<Hash>)
    requires |ids| == 2
    ensures Root(ToyHash, ids) == ZERO_HASH
  {
    assert |Level(ToyHash, ids)| == 1 && Level(ToyHash, ids)[0] == ToyHash(Pair(ids, 0));
  }

  const HUGE: u64 := 0x8000_0000_0000_0000

  function InflatedBlock(): Block { Block(ToyHeader(), [Minting(HUGE)]) }

  lemma InflatedReady(s: State)
    requires s.height == 0 && s.best == ZERO_HASH && ONE !in s.cache
    ensures Ready(ToyHash, s, InflatedBlock(), 0) && RewardOnly(InflatedBlock())
    ensures InflatedBlock().transactions[0].outputs[0].amount == HUGE
  {
    OneTxRoot(Minting(HUGE));
    ToyHeaderShaped();
    ToyReady(s, InflatedBlock());
  }

  /**
   Without the hypothesis of SupplyNeverExceeded one accepted block exceeds the money limit: a reward of
   2^63 units is neither compared with the schedule nor capped.
   */
  lemma SupplyNeedsConserving()
    ensures var s := Run(ToyHash, Genesis(ToyHash, false), [Submission(InflatedBlock(), 1, 0)]);
            s.height == 1 && Total(s.utxo) > MAX_MONEY
  {
    ToyGenesis();
    InflatedRun(Genesis(ToyHash, false));
  }

  lemma InflatedRun(s: State)
    requires s.height == 0 && s.best == ZERO_HASH && ONE !in s.cache
    ensures Run(ToyHash, s, [Submission(InflatedBlock(), 1, 0)]).height == 1
    ensures Total(Run(ToyHash, s, [Submission(InflatedBlock(), 1, 0)]).utxo) >= HUGE
  {
    RunOne(ToyHash, s, Submission(InflatedBlock(), 1, 0));
    InflatedReady(s);
    AnyRewardAccepted(ToyHash, s, InflatedBlock(), 0);
  }

  lemma RunOne(H: HashFn, s: State, x: Submission)
    ensures Run(H, s, [x]) == Step(H, s, x)
  {
    assert [x][..0] == [];
  }

  /** A reward and a transaction that names one coin twice. */
  function RepeatingBlock(op: OutPoint): Block { Block(ToyHeader(), [Minting(0), SpendingTwice(op)]) }

  lemma RepeatingReady(s: State, op: OutPoint)
    requires s.height == 0 && s.best == ZERO_HASH && ONE !in s.cache
    ensures Ready(ToyHash, s, RepeatingBlock(op), 0)
  {
    TwoTxRoot(Minting(0), SpendingTwice(op));
    ToyHeaderShaped();
    ToyReady(s, RepeatingBlock(op));
  }

  /** One refused block right after genesis leaves no coin at all. */
  lemma GenesisCoinLost()
    ensures var g := Genesis(ToyHash, false);
            var x := Submission(RepeatingBlock(OutPoint(ZERO_HASH, 0)), 1, 0);
            !AddBlock(ToyHash, g, x.block, 1, 0).0 && Step(ToyHash, g, x).utxo == map[]
  {
    ToyGenesis();
    RepeatingLosesAll(Genesis(ToyHash, false), OutPoint(ZERO_HASH, 0));
  }

  lemma RepeatingLosesAll(s: State, op: OutPoint)
    requires s.height == 0 && s.best == ZERO_HASH && ONE !in s.cache && s.utxo.Keys == {op}
    ensures !AddBlock(ToyHash, s, RepeatingBlock(op), 1, 0).0
    ensures Step(ToyHash, s, Submission(RepeatingBlock(op), 1, 0)).utxo == map[]
  {
    RepeatingReady(s, op);
    LoneCoin(s.utxo, op);
    RefusedBlockSpends(ToyHash, s, RepeatingBlock(op), op, 0);
  }

  lemma LoneCoin(m: UtxoMap, op: OutPoint)
    requires m.Keys == {op}
    ensures m - {op} == map[]
  {
  }
}
