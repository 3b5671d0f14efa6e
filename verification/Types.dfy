/** The value types of the chain: transactions, headers, blocks and the coin parameters. */
module Types {
  import opened Bytes

  type Hash = h: seq<byte> | |h| == 32 witness Zeros(32)

  /** Double SHA-256 is foreign code: every theorem holds for every function of its type. */
  type HashFn = seq<byte> -> Hash

  type Script = seq<byte>

  datatype Option<+T> = None | Some(value: T)

  const ZERO_HASH: Hash := Zeros(32)

  datatype OutPoint = OutPoint(hash: Hash, index: u32)

  datatype TxOutput = TxOutput(amount: u64, scriptPubkey: Script)

  datatype TxInput = TxInput(prevTxHash: Hash, outputIndex: u32, signature: seq<byte>, pubkey: seq<byte>)
  {
    function Spends(): OutPoint { OutPoint(prevTxHash, outputIndex) }
  }

  datatype Transaction = Transaction(version: u32, inputs: seq<TxInput>, outputs: seq<TxOutput>, lockTime: u32)
  {
    predicate IsCoinbase() {
      |inputs| == 1 && inputs[0].prevTxHash == ZERO_HASH && inputs[0].outputIndex == 0xffff_ffff
    }
  }

  datatype BlockHeader = BlockHeader(
    version: u32, previousHash: Hash, merkleRoot: Hash, timestamp: u64, difficultyTarget: u32, nonce: u32)

  datatype Block = Block(header: BlockHeader, transactions: seq<Transaction>)

  const COIN: u64 := 100_000_000
  const MAX_MONEY: u64 := 12_000_000 * COIN
  const BLOCK_TIME_TARGET: u32 := 600
  const DIFFICULTY_INTERVAL: u32 := 2016
  const SUBSIDY_HALVING_INTERVAL: u64 := 210_000
  const INITIAL_BLOCK_SUBSIDY: u64 := 25 * COIN
}
