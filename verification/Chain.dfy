/** The chain as a value: its state and the step one submitted block makes. */
module Chain {
  import opened Bytes
  import opened Types
  import opened Codec
  import opened Txid
  import opened Merkle
  import opened ProofOfWork
  import opened Consensus
  import opened Difficulty
  import opened Utxo

  // ---------- genesis ----------

  const GENESIS_MESSAGE := "Shawn Coin - The Future of Digital Currency 2026"
  const GENESIS_TIME: u64 := 1704067200

  function Ascii(s: string): seq<byte> { seq<byte>(|s|, i requires 0 <= i < |s| => s[i] as int % 256) }

  function P2pkh(hash160: seq<byte>): Script { [0x76, 0xa9, 0x14] + hash160 + [0x88, 0xac] }

  /** The script that pays a key hash, or the zero hash when given anything but 20 bytes. */
  function PayTo(hash160: seq<byte>): Script { P2pkh(if |hash160| == 20 then hash160 else Zeros(20)) }

  function CoinbaseInput(script: seq<byte>): TxInput { TxInput(ZERO_HASH, 0xffff_ffff, script, []) }

  /** A transaction with one coinbase input, paying one key hash. */
  function Coinbase(script: seq<byte>, amount: u64, hash160: seq<byte>): Transaction {
    Transaction(1, [CoinbaseInput(script)], [TxOutput(amount, PayTo(hash160))], 0)
  }

  function GenesisCoinbase(): Transaction {
    Coinbase(Ascii(GENESIS_MESSAGE), INITIAL_BLOCK_SUBSIDY, Zeros(20))
  }

  function GenesisBlock(H: HashFn): Block {
    Block(BlockHeader(1, ZERO_HASH, MerkleRoot(H, [GenesisCoinbase()]), GENESIS_TIME, INITIAL_DIFFICULTY, 0),
          [GenesisCoinbase()])
  }

  function BlockHash(H: HashFn, b: Block): Hash { HeaderHash(H, b.header) }

  // ---------- state and step ----------

  /** What the attached storage holds: serialized blocks and a best-block record. */
  datatype Store = Store(blocks: map<Hash, seq<byte>>, bestHash: Hash, bestHeight: nat)

  datatype State = State(
    height: nat, best: Hash, cache: map<Hash, Block>, index: map<nat, Hash>, utxo: UtxoMap, store: Option<Store>)

  const EMPTY_STORE := Store(map[], ZERO_HASH, 0)

  /** A chain of one block, with or without an empty storage attached. */
  function Start(H: HashFn, g: Block, stored: bool): State {
    var hash := BlockHash(H, g);
    State(0, hash, map[hash := g], map[0 := hash], ConnectUtxo(H, map[], g).1,
          if stored then Some(EMPTY_STORE) else None)
  }

  function Genesis(H: HashFn, stored: bool): State { Start(H, GenesisBlock(H), stored) }

  function BlockAt(s: State, height: nat): Option<Block> {
    if height in s.index && s.index[height] in s.cache then Some(s.cache[s.index[height]]) else None
  }

  /** The target a block on top of the state must carry, if any is prescribed. */
  function ExpectedTarget(s: State): Option<u32> {
    var prev := BlockAt(s, s.height);
    if s.height == 0 || prev.None? then None else
    var prevTarget := prev.value.header.difficultyTarget;
    var next := s.height + 1;
    if next % DIFFICULTY_INTERVAL != 0 || s.height < DIFFICULTY_INTERVAL - 1 then Some(prevTarget) else
    var first := BlockAt(s, s.height - (DIFFICULTY_INTERVAL - 1));
    if first.None? then Some(prevTarget) else
    Some(AdaptiveNextDifficulty(prevTarget, prev.value.header.timestamp, first.value.header.timestamp,
                                DIFFICULTY_INTERVAL, next))
  }

  predicate DifficultyOk(s: State, header: BlockHeader) {
    ExpectedTarget(s).None? || header.difficultyTarget == ExpectedTarget(s).value
  }

  /** Every transaction after the first is well formed and its inputs are coins of the set. */
  ghost predicate TransactionsOk(m: UtxoMap, txs: seq<Transaction>) {
    forall i :: 1 <= i < |txs| ==> ValidTransaction(txs[i]) && AsSet(Spends(txs[i].inputs)) <= m.Keys
  }

  /** The checks a block passes before it touches the coins. */
  ghost predicate Admissible(H: HashFn, s: State, b: Block, now: u64) {
    ValidStructure(H, b, now) && DifficultyOk(s, b.header) && TransactionsOk(s.utxo, b.transactions)
  }

  function StoreBlock(H: HashFn, store: Option<Store>, b: Block, height: nat): Option<Store> {
    if store.None? then None else
    Some(Store(store.value.blocks[BlockHash(H, b) := BlockBytes(b)], BlockHash(H, b), height))
  }

  function Extend(H: HashFn, s: State, b: Block, height: nat, coins: UtxoMap): State {
    var hash := BlockHash(H, b);
    State(height, hash, s.cache[hash := b], s.index[height := hash], coins, StoreBlock(H, s.store, b, height))
  }

  ghost function ConnectBlock(H: HashFn, s: State, b: Block, height: nat, now: u64): (bool, State) {
    if !Admissible(H, s, b, now) then (false, s) else
    var (ok, coins) := ConnectUtxo(H, s.utxo, b);
    (ok, if ok then Extend(H, s, b, height, coins) else s.(utxo := coins))
  }

  /** One submitted block: known blocks are accepted without effect, others must be next in line. */
  ghost function AddBlock(H: HashFn, s: State, b: Block, height: nat, now: u64): (bool, State) {
    if BlockHash(H, b) in s.cache then (true, s)
    else if height != s.height + 1 || b.header.previousHash != s.best then (false, s)
    else ConnectBlock(H, s, b, height, now)
  }

  /** A block that was neither known nor refused. */
  ghost predicate Accepted(H: HashFn, s: State, b: Block, height: nat, now: u64) {
    BlockHash(H, b) !in s.cache && AddBlock(H, s, b, height, now).0
  }
}
