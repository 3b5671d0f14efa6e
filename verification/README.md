# ShawnCoin: a verified model of the chain core

ShawnCoin is a small Bitcoin-style chain written in C++. This project models its rules in Dafny and
proves what they promise, and, where the code does not keep a promise of its documentation, exactly when
it does. It covers:

- the chain state machine: block acceptance, the coin (UTXO) set, the height index, the attached storage,
  the prescribed target, the emission schedule (`Subsidy`, `Difficulty`, `Consensus`, `Utxo`,
  `ConnectedCoins`, `Chain`, `ChainObjects`, `ChainRuns`, `AcceptedBlocks`, `RetargetRuns`, `Supply`,
  `SupplyLedger`, `RepeatedTail`, `ChainWitnesses`);
- the wire and storage format of transactions and blocks (`Codec`, `CodecSafety`, `CodecLoops`, `Layouts`);
- transaction ids, the Merkle root and what they commit to (`Txid`, `TxidLimits`, `Merkle`);
- proof of work, the miner's nonce search and the blocks it builds (`ProofOfWork`, `Miner`, `MiningLoop`);
- Base58, addresses and Base64 (`Base58`, `Base58Laws`, `Base58Meaning`, `Base64`);
- the wallet: balance, coin selection, payment building, signing (`Coins`, `WalletSpec`, `WalletObjects`,
  `WalletAddresses`).

`dafny verify dfyconfig.toml` checks everything.

## How the model is built

Code that changes things step by step is a method or a class whose contract ties it to a function or to
its old state; the laws are lemmas about those functions. `Bytes` and `Types` hold the fixed-width
integers and the value types.

- Double SHA-256 is a parameter `H` of type `HashFn`: every result holds for every function from byte
  strings to 32 bytes. No injectivity is assumed. Commitment is stated as "equal, or these two strings,
  both among those hashed here, collide".
- The clock is the parameter `now`. The key library, the derivation of private keys and addresses from a
  seed, and (in `WalletSpec`) the reading of an address are function parameters; `WalletAddresses` puts the
  program's own address reader in.
- A run is any sequence of submitted blocks, refused ones included (`ChainRuns.Run`); each `addBlock` is
  one step.
- Machine widths are written out where they matter: the 64-bit wrap of the retarget product, of elapsed
  time, of balances and sums; the 32-bit wrap of the Base64 accumulators and of the nonce; the one-byte
  casts in a transaction id; the sign extension of five-byte length prefixes; the 32-bit output index.

## Where code and documentation differ

The model follows the code. These are proved, each with the exact condition or a concrete run:

- A proof-of-work hash is compared with the target array lowest byte first although the array is filled
  highest byte first, and holds the number modulo 2^256 only. The comparison is the documented one exactly
  for zero targets and for those whose mantissa is a palindrome in the middle of the array (size bytes 17
  and 18); neither the genesis nor the mining target is one (`DocumentedExactlyWhenSymmetric`). Targets
  whose mantissa lies beyond 256 bits pass the zero hash only (`OnlyZeroHashExactly`).
- The header hash covers only the low half of the eight-byte timestamp (`HeaderBytesExact`).
- From compact target 0x01fffffc on, the basic retarget ignores the time an interval took
  (`TimespanIgnoredExactly`). The emergency rule, described as making fast intervals harder and slow ones
  easier, lowers every nonzero target of a slow interval and raises that of a fast one unless its 32-bit
  multiple wraps (`AdaptiveDirection`, `FastRaisesBySize`). It asks for a target only the zero hash passes
  exactly when the new size byte is 0 or at least 35 (`RetargetLocksExactly`, for old targets from
  0x01fffffc on and intervals that ran forward); for the first retarget at the easy and at the genesis
  target the timestamps are given, backward ones included (`FirstRetargetLocksExactly`).
- Transaction ids tell payments apart exactly when scripts have at most 255 bytes or there is at most one
  output, and there are at most 255 inputs or the outputs cannot fill the bytes of 256 inputs
  (`LimitsExact`).
- A refused block can remove coins: exactly when it passes every guard and names an outpoint twice
  (`RefusalLeavesStateExactly`, `RefusedBlockSpends`, `GenesisCoinLost`). A block with its last
  transactions repeated can be such a block under the same header hash (`RepeatedTailConsumes`).
- Disconnecting a block does not restore what it spent (`DisconnectInvertsExactly`).
- The supply limit rests on what block builders do, not on validation (`SupplyNeverExceeded`,
  `AnyRewardAccepted`, `SupplyNeedsConserving`); the schedule ends below 10.5 million coins, not at 12
  million (`SupplyBounded`).
- The payment builder meets that hypothesis exactly when amount plus fee stays below 2^64: otherwise the
  need wraps and the outputs exceed the inputs (`PaymentConservesExactly`, `WrappedPayment`).
- The Merkle root determines the leaves only up to the copies its loop makes (`RootsEqualExactly`).
- The miner puts the height into the coinbase signature, which the id leaves out: rewards of one amount to
  one key hash replace each other, and otherwise only by a hash collision (`CoinbasePreimageExact`,
  `RewardIdsExact`, `MinedRewardsCollapse`). What is missing from the issued total is accounted for in full
  (`SupplyGapExact`).
- A chain mined with the fixed easy target cannot pass height 2015 (`EasyChainEnds`).
- Base58 decoding never reverses its bytes: an address reads back as the key hash whose 25 address bytes
  are its own in reverse, if there is one (`DecodeEncode`, `AddressReadsAsExactly`), so a wallet recognises
  and pays key hashes accordingly (`OwnCoinRecognised`, `AddressPays`, `PaymentReaches`).
- A block within consensus but beyond the parser's limits cannot be read back from storage
  (`StorageAgreesExactly`).

## Model

| member | source | states |
|---|---|---|
| ChainRuns.RunHolds | shawncoin/src/core/blockchain.cpp:37-82 | After any run height, tip, cache and height index describe one list of blocks: index keys are 0..height, index and cache hold exactly its hashes, all distinct, each block names the one below, and earlier blocks never change |
| ChainRuns.WalkReachesGenesis | shawncoin/src/core/blockchain.cpp:10-17 | From the tip of any run, following previous-hash links meets the genesis hash after exactly height steps and not before |
| ChainRuns.AcceptedExactly | shawncoin/src/core/blockchain.cpp:37-82 | A block unknown so far is accepted exactly when it is next in line, passes all guards and names no outpoint twice |
| ChainRuns.RefusalLeavesStateExactly | shawncoin/src/core/consensus.cpp:81-99 | A refused block leaves every field unchanged except when it passes all guards and names an outpoint twice; then only coins are lost |
| ChainRuns.CoinsAreReplay | shawncoin/src/core/blockchain.cpp:37-82 | If no submitted block names an outpoint twice, the coins after any run are those of connecting the chain's blocks in order from nothing |
| ChainRuns.StorageAgreesExactly | shawncoin/src/storage/chainstate.cpp:36-48 | With a storage attached, every non-genesis block of the cache can be read back as the same block exactly when it is within the parser's limits |
| ChainRuns.RunMirrored | shawncoin/src/core/blockchain.cpp:57-69 | In every run the storage holds the bytes of every cached block but genesis, and its best-block record is the tip |
| ChainRuns.RunTargets | shawncoin/src/core/consensus.cpp:101-123 | In every run each target from height 2 on equals the one below, and at multiples of 2016 the retarget of the blocks 1 and 2016 below |
| ChainRuns.IntervalConstant | shawncoin/src/core/consensus.cpp:109-114 | Within one interval of 2016 heights (from height 1 on) the target is constant |
| ChainRuns.EasyChainEnds | shawncoin/src/mining/miner.cpp:95-96 | A chain whose every block after genesis carries the miner's fixed easy target has height at most 2015, whatever its timestamps |
| ChainRuns.RunReplays | shawncoin/src/core/blockchain.cpp:51-54 | From any state whose coins are a replay of its blocks, every run of blocks without repeated outpoints keeps that |
| ChainObjects.Blockchain.constructor | shawncoin/src/core/blockchain.cpp:10-17 | The constructed chain is the one-block genesis state |
| ChainObjects.Blockchain.AddBlock | shawncoin/src/core/blockchain.cpp:73-82 | The object's new state and answer are those of the step function on its old state |
| ChainObjects.Blockchain.ConnectBlock | shawncoin/src/core/blockchain.cpp:37-71 | Guards in order, coins connected, then cache, index, tip, height and storage updated together; on failure nothing but spent coins changes |
| ChainObjects.Blockchain.CheckDifficulty | shawncoin/src/core/consensus.cpp:101-123 | True exactly when no target is prescribed or the header carries the prescribed one |
| ChainObjects.Blockchain.GetBlock | shawncoin/src/core/blockchain.cpp:84-93 | The cached block, else whatever the storage still parses under that hash, else nothing |
| ChainObjects.Blockchain.GetBlockByHeight | shawncoin/src/core/blockchain.cpp:95-102 | The cached block the height index names, if both exist |
| ChainObjects.MemoryChainState.PutBlock | shawncoin/src/storage/chainstate.cpp:43-48 | Stores exactly the block's serialized bytes under the hash |
| ChainObjects.MemoryChainState.GetBlock | shawncoin/src/storage/chainstate.cpp:36-41 | Succeeds exactly when bytes are stored under the hash and parse, with the block they parse to |
| ChainWitnesses.AnyRewardAccepted | shawncoin/src/core/consensus.cpp:81-99 | For every hash function and state, a reward of any amount is accepted once its header has work and is in order, and the new coin set is the old one with exactly that reward put in |
| ChainWitnesses.SupplyNeedsConserving | shawncoin/src/core/consensus.cpp:81-99 | For one hash function, a concrete run from genesis in which one accepted block puts more coins into the set than the money limit |
| ChainWitnesses.RefusedBlockSpends | shawncoin/src/core/consensus.cpp:84-88 | For every hash function and state, a block in order that names one coin twice is refused and leaves exactly that coin removed |
| ChainWitnesses.GenesisCoinLost | shawncoin/src/core/consensus.cpp:84-88 | For one hash function, a concrete refused block after genesis that leaves no coin at all |
| Utxo.ConnectExact | shawncoin/src/core/consensus.cpp:81-99 | Connecting succeeds exactly when the block's spends are distinct coins of the set; then the set is the old one without them overlaid by the outputs in order; on failure it is a submap of the old one |
| Utxo.ConnectBlockUTXO | shawncoin/src/core/consensus.cpp:81-99 | The nested loops give the answer and the coin set of the specification, half-applied failures included |
| ConnectedCoins.ConnectsExactly | shawncoin/src/core/consensus.cpp:84-88 | A block connects exactly when every input of its transactions after the first names a coin of the set and no two places name the same |
| ConnectedCoins.ConnectedEntries | shawncoin/src/core/consensus.cpp:81-99 | Then each output that no later one replaces stands under its transaction's id and its own number, with its amount and script; the set holds the outputs' outpoints and the old coins the block does not name, these unchanged, and nothing else |
| ConnectedCoins.OutputsKept | shawncoin/src/core/consensus.cpp:89-97 | Output j of a transaction of at most 2^32 outputs, whose id no later one has, is in the set at exactly (id, j) with its amount and script |
| ConnectedCoins.DisconnectedEntries | shawncoin/src/core/consensus.cpp:125-143 | Disconnecting removes exactly the outpoints (id, j) of the block's outputs and changes no other coin |
| Utxo.DisconnectAfterConnect | shawncoin/src/core/consensus.cpp:125-143 | Disconnecting a connected block leaves the old set without its spends and without the outpoints it created |
| Utxo.DisconnectInvertsExactly | shawncoin/src/core/consensus.cpp:125-143 | Disconnect undoes connect exactly for blocks that spend nothing and create only new outpoints |
| Utxo.DisconnectBlockUTXO | shawncoin/src/core/consensus.cpp:125-143 | The loops remove exactly the outpoints the block creates |
| Utxo.UTXOSet.Spend | shawncoin/src/core/utxo.cpp:18-21 | Erases one outpoint and says whether it was there |
| Utxo.UTXOSet.Put | shawncoin/src/core/utxo.cpp:6-9 | Adds or replaces one coin |
| Supply.SupplyNeverExceeded | shawncoin/src/core/types.hpp:75-97 | If each accepted block pays at most its reward in the first transaction and at most the inputs in the others, then after any run all coins together are at most the issued total, below 10.5 million coins and the money limit |
| Supply.ConnectConserves | shawncoin/src/core/consensus.cpp:81-99 | For every connected block, new total plus spent plus replaced amounts equal old total plus created amounts; new outpoints replace nothing |
| Supply.RunBounded | shawncoin/src/core/blockchain.cpp:37-82 | From any state within the schedule, every such run stays within it, refused and half-applied blocks included |
| SupplyLedger.RunBalances | shawncoin/src/core/blockchain.cpp:37-82 | Over every run, honest or not, coins after plus fees left, replaced and burnt amounts equal coins before plus rewards paid |
| SupplyLedger.SupplyGapExact | shawncoin/src/core/types.hpp:92-97 | After an honest run the coins fall short of the issued total by exactly the unclaimed rewards, fees, replaced and burnt amounts, none negative, so reach it exactly when all are zero |
| SupplyLedger.DistinctBurnsNothing | shawncoin/src/core/consensus.cpp:84-88 | Runs of blocks without repeated outpoints burn nothing |
| SupplyLedger.RewardReplacesExactly | shawncoin/src/core/consensus.cpp:89-97 | A block of one transaction with one output replaces exactly the coin under that transaction's id |
| SupplyLedger.RewardIdsExact | shawncoin/src/core/types.cpp:17-48 | Two rewards share an id exactly when they pay one amount to one script, or their hashed bytes collide |
| SupplyLedger.RewardChainCoins | shawncoin/src/mining/miner.cpp:97-122 | A chain of reward-only blocks of any amounts and payouts holds the genesis coin overlaid by theirs, one coin for each different id |
| SupplyLedger.MinedRewardsCollapse | shawncoin/src/mining/miner.cpp:97-122 | However long a chain of reward-only blocks of one amount to one key hash, its coin set is the genesis coin and one reward |
| SupplyLedger.CoinbasePreimageExact | shawncoin/src/core/types.cpp:26-32 | Two coinbases hash the same bytes for their ids exactly when they pay one amount to one script, whatever their own scripts with the height say |
| Supply.GenesisCoins | shawncoin/src/core/block.cpp:86-110 | The genesis state holds one coin: the first reward to the zero key hash |
| Subsidy.SupplyClosedForm | shawncoin/src/core/types.hpp:84-97 | The issued total at height 210000q + r is 210000 times the rewards of the q full eras plus r + 1 rewards of the current one |
| Subsidy.SupplyBounded | shawncoin/src/core/types.hpp:92-97 | The issued total stays below 10.5 million coins and from era 32 on is 1049999997690000 units |
| Subsidy.SupplyMonotone | shawncoin/src/core/types.hpp:92-97 | The issued total never falls with height |
| Subsidy.SubsidyOfEra | shawncoin/src/core/types.hpp:84-89 | The reward depends on the era only, and the cut-off at 32 halvings agrees with the shift |
| Subsidy.GetTotalSupplyUpTo | shawncoin/src/core/types.hpp:92-97 | The loop returns the sum of all rewards without its 64-bit total wrapping, for every height it returns for |
| Subsidy.GetBlockSubsidy | shawncoin/src/core/types.hpp:84-89 | Halving in a loop equals the specified reward |
| Consensus.ValidateBlockStructure | shawncoin/src/core/consensus.cpp:53-66 | True exactly when there is a leading coinbase, the Merkle root matches, the timestamp is at most two hours ahead, the mantissa is nonzero and the hash passes |
| AcceptedBlocks.ValidatedBlocksAgree | shawncoin/src/core/consensus.cpp:53-66 | Two blocks with one header and one count that both pass these checks have equal payments, for inputs and scripts of at most 255, or two hashed strings collide |
| AcceptedBlocks.AcceptedIsSound | shawncoin/src/core/blockchain.cpp:37-82 | A newly accepted block opens with a reward input, carries the tree root of its own transactions' ids, meets its own target with a nonzero mantissa, is stamped at most 7200 seconds ahead, and its other transactions have inputs that are coins, outputs, and pay at most the money limit |
| AcceptedBlocks.UnsoundRefused | shawncoin/src/core/consensus.cpp:53-79 | An unknown block that fails any of these, such as one whose root is not its own, is refused and leaves the state as it was |
| AcceptedBlocks.RunSound | shawncoin/src/core/blockchain.cpp:37-82 | In every run each block above the start came with a submission and was sound at that time |
| AcceptedBlocks.EveryBlockRootsItself | shawncoin/src/core/block.cpp:86-110 | Every block of every chain, genesis included, carries the tree root of its own transactions' ids and opens with a reward |
| AcceptedBlocks.NamedByHeaderHash | shawncoin/src/core/blockchain.cpp:57-69 | Index, cache, tip and previous-hash links name each block by the hash of its 80 header bytes |
| Consensus.ValidateTransactionStructure | shawncoin/src/core/consensus.cpp:68-79 | The 64-bit sum with caps and overflow test decides that the unbounded output sum is within the money limit and that there are inputs and outputs |
| Difficulty.NextDifficultyExact | shawncoin/src/mining/difficulty.cpp:9-19 | Over 2016 blocks and a positive timespan the product stays below 2^64, the exponent byte is kept and the mantissa is the capped, time-scaled compact number |
| Difficulty.NextDifficultyMonotone | shawncoin/src/mining/difficulty.cpp:9-19 | A longer positive timespan never lowers the target |
| Difficulty.TimespanIgnoredExactly | shawncoin/src/mining/difficulty.cpp:15-18 | Every positive timespan saturates the mantissa exactly for compact targets from 0x01fffffc on, so for every exponent of 2 or more |
| Difficulty.AdaptiveDirection | shawncoin/src/mining/difficulty.cpp:21-56 | At every height: between half and twice the planned time the adaptive rule adds nothing; a fast interval raises the basic target exactly for the stated ranges of it, whose multiple in 32 bits does not wrap below it, and below height 10000 lowers all others but zero; a slow one lowers it exactly when it is nonzero (past height 10000, from eight times the planned time on) and never raises it |
| Difficulty.FastRaisesBySize | shawncoin/src/mining/difficulty.cpp:21-56 | For old targets from 0x01fffffc on, an interval eight times too fast raises the target exactly for the stated size bytes, at every height |
| RetargetRuns.RetargetLocksExactly | shawncoin/src/core/consensus.cpp:101-123 | At every retarget height of a chain whose interval ran forward, from an old target of at least 0x01fffffc, the prescribed target passes the zero hash only exactly when the size byte the retarget gives, computed from the old size byte, the time and the height, is 0 or at least 35 |
| RetargetRuns.RetargetZeroExactly | shawncoin/src/mining/difficulty.cpp:9-56 | The same of the retarget function: for every forward interval and height its result is an all-zero array exactly for those size bytes |
| RetargetRuns.FirstRetargetLocksExactly | shawncoin/src/mining/difficulty.cpp:21-56 | For every timestamp of the tip at height 2015: at the easy target only the zero hash is accepted next exactly when it lies before genesis, less than 151125 or more than 9672000 seconds after it; at the genesis target exactly when it lies 0 to 604499 seconds after |
| RetargetRuns.LockedExactly | shawncoin/src/core/consensus.cpp:26-50 | Such a chain takes no block but one whose hash is zero; under any other prescribed target a nonzero hash passes |
| RetargetRuns.FastFirstRetarget | shawncoin/src/mining/difficulty.cpp:21-56 | A first interval eight times too fast asks for 0x23fffff8 after the easy and for 0xebfffff8 after the genesis target |
| Difficulty.EasyTargetRepeatedExactly | shawncoin/src/mining/difficulty.cpp:21-56 | The retarget of the easy target is the easy target exactly when the clock ran backwards so far that the 64-bit difference wraps to between half and twice an interval |
| Codec.TxRoundTrip | shawncoin/src/core/transaction.cpp:34-108 | A transaction within the limits parses back from its bytes with any suffix, consuming exactly its bytes |
| Codec.BlockRoundTrip | shawncoin/src/core/block.cpp:38-84 | The same for blocks |
| CodecSafety.TxReprints | shawncoin/src/core/transaction.cpp:54-108 | Whatever the parser accepts is within the limits and reprints to no more bytes than were consumed; if to as many, to the same bytes |
| CodecSafety.InputsReprint | shawncoin/src/core/transaction.cpp:80-93 | n parsed inputs consume at least 38n bytes, for any announced count |
| CodecSafety.OutputsReprint | shawncoin/src/core/transaction.cpp:96-104 | n parsed outputs consume at least 9n bytes |
| CodecSafety.ReparseAccepted | shawncoin/src/core/transaction.cpp:54-108 | Read, printed and read again, an accepted transaction stays the same |
| CodecSafety.NoSoleEncoding | shawncoin/src/core/transaction.cpp:61-93 | Every transaction within the limits has a second, longer encoding that parses to it |
| CodecSafety.LongFormAccepted | shawncoin/src/core/transaction.cpp:61-75 | Every transaction with few inputs has one that is two bytes longer |
| CodecSafety.StoredBlockReadableIff | shawncoin/src/core/block.cpp:38-84 | A block parses back from its own bytes exactly when it is within the parser's limits |
| CodecLoops.SerializeTransaction | shawncoin/src/core/transaction.cpp:34-52 | The appending loops produce the specified bytes after what was in the buffer |
| CodecLoops.SerializeBlock | shawncoin/src/core/block.cpp:38-50 | The block printer produces the specified bytes |
| Layouts.TxBytesParts | shawncoin/src/core/transaction.cpp:34-52 | The parts of a sent transaction, of each input and of each output, in order |
| Layouts.StoredHeaderLayout | shawncoin/src/core/block.cpp:38-50 | Where each field lies in the 84 stored header bytes |
| Layouts.VarIntForms | shawncoin/src/core/transaction.cpp:18-32 | The bytes of the three length forms |
| Layouts.VarIntRead | shawncoin/src/core/transaction.cpp:61-75 | What each form reads as, the five-byte one sign-extended to 64 bits; 255 and truncated forms fail |
| CodecLoops.WriteVarInt | shawncoin/src/core/transaction.cpp:18-32 | The three forms of a length prefix, the longest keeping the low 32 bits |
| CodecLoops.ReadVarInt | shawncoin/src/core/transaction.cpp:61-75 | Reads any form at the cursor, sign-extending the five-byte one, and moves the cursor by its length |
| CodecLoops.DeserializeTransaction | shawncoin/src/core/transaction.cpp:54-108 | For any bytes and count the cursor parser terminates, keeps the cursor monotone and within the data, and agrees with the specification parser |
| CodecLoops.DeserializeBlock | shawncoin/src/core/block.cpp:52-84 | The same for blocks, with the 80-byte minimum |
| Txid.CoreBytesInjective | shawncoin/src/core/types.cpp:17-48 | With at most 255 inputs and script bytes the hashed bytes determine the transaction up to signatures and keys, whatever its number of outputs |
| TxidLimits.LimitsExact | shawncoin/src/core/types.cpp:17-48 | For every limit on inputs, outputs and script length, two payments within it hash the same bytes exactly when two outputs and scripts of 256 bytes are allowed, or 256 inputs and outputs of 9216 bytes in all |
| TxidLimits.ScriptLimitExact | shawncoin/src/core/types.cpp:34-39 | With counts up to 255, ids are ambiguous for a script limit exactly when it exceeds 255 |
| TxidLimits.InputLimitExact | shawncoin/src/core/types.cpp:26-39 | With outputs and script lengths up to 255, ids are ambiguous for a limit on inputs exactly when it exceeds 255 |
| TxidLimits.LargeOutputsShareId | shawncoin/src/core/types.cpp:33-39 | One output with a script of 2304k zero bytes and 256k + 1 empty outputs hash the same bytes |
| Txid.BuildPreimage | shawncoin/src/core/types.cpp:19-43 | The loops produce the specified preimage |
| Layouts.PreimageFrame | shawncoin/src/core/types.cpp:19-43 | Where version, the two one-byte counts and the lock time lie in what an id hashes, and how long that is |
| Layouts.PreimageInput | shawncoin/src/core/types.cpp:26-32 | Input i lies at byte 5 + 36i: the spent id, then the output number |
| Layouts.PreimageOutput | shawncoin/src/core/types.cpp:34-39 | Output j lies behind the inputs and the outputs before it: eight bytes of amount, one of length, the script |
| Txid.CachedTransaction.GetTxid | shawncoin/src/core/types.cpp:17-48 | Returns and stores the cached or computed id; a coherent cache stays coherent |
| Txid.CachedTransaction.SetSignature | shawncoin/src/wallet/wallet.cpp:115-116 | Signing an input changes neither the id nor the cache's coherence |
| Merkle.RootIsTree | shawncoin/src/mining/merkle.cpp:9-28 | Row-by-row hashing computes the root of the tree defined from the top, a missing right child replaced by the left one |
| Merkle.PairBytes | shawncoin/src/mining/merkle.cpp:14-22 | The left hash fills the first 32 hashed bytes, its right neighbour, or itself again, the other 32 |
| Merkle.NodeHashed | shawncoin/src/mining/merkle.cpp:14-22 | The hash of every inner node is that of its left child's hash followed by its right child's, or the left one's again |
| Merkle.FewLeaves | shawncoin/src/mining/merkle.cpp:9-28 | The roots of one, two and three leaves a, b, c are a, H(ab) and H(H(ab) H(cc)) |
| Merkle.ComputeMerkleRootFromHashes | shawncoin/src/mining/merkle.cpp:9-28 | The loop terminates with that root, and with zeros for no leaves |
| Merkle.ComputeMerkleRoot | shawncoin/src/mining/merkle.cpp:30-37 | The root over the ids of the transactions |
| Merkle.RootOfCompleted | shawncoin/src/mining/merkle.cpp:9-28 | Writing out the copies the loop makes of odd last hashes gives a full row with the same root, and hashing it hashes nothing new |
| Merkle.RootsEqualExactly | shawncoin/src/mining/merkle.cpp:9-28 | Two rows whose trees have one depth, whatever their lengths, have one root exactly when these completed rows are equal, or two of the strings hashed for them collide |
| Merkle.RootsOfUnequalDepth | shawncoin/src/mining/merkle.cpp:9-28 | The same for trees of different depth, with the row of the larger tree that has the smaller depth |
| Merkle.HeaderCommitsToCompletion | shawncoin/src/mining/merkle.cpp:30-37 | Blocks under one root whose trees have one depth, whatever their counts, have the same completed lists of payments for inputs and scripts of at most 255, or two strings hashed for them collide |
| Merkle.RepeatedTailCompletes | shawncoin/src/mining/merkle.cpp:14-24 | Over m times 2^j items, m odd and above one, repeating the last 2^j leaves the completed row as it was |
| Merkle.RepeatedTailKeepsRoot | shawncoin/src/mining/merkle.cpp:14-24 | So over such leaves appending a copy of the last 2^j leaves keeps the root |
| RepeatedTail.RepeatedTailConsumes | shawncoin/src/core/blockchain.cpp:37-82 | If a block would be accepted, has m times 2^j transactions, m odd and above one, and the last 2^j spend something, then with those repeated it keeps its hash, passes every guard, is refused, and leaves all the block's spends removed, after which the block itself is refused |
| Merkle.RootCommits | shawncoin/src/mining/merkle.cpp:9-28 | Different lists of one length with one root yield a collision between a string hashed for the first and one hashed for the second |
| Merkle.HeaderCommits | shawncoin/src/mining/merkle.cpp:30-37 | Equal root and count mean equal transactions up to signatures and keys, for inputs and scripts of at most 255, or a collision among the strings hashed for the two blocks |
| ProofOfWork.HeaderBytesExact | shawncoin/src/core/types.cpp:65-90 | Two headers hash the same 80 bytes exactly when they agree but for the upper half of the timestamp |
| Layouts.HashedHeaderLayout | shawncoin/src/core/types.cpp:65-90 | Where each field lies in the 80 hashed bytes |
| ProofOfWork.OverlappingWrites | shawncoin/src/core/consensus.cpp:18-24 | The validator's overlapping buffer writes give the header bytes the miner pushes field by field |
| ProofOfWork.CheckProofOfWork | shawncoin/src/core/consensus.cpp:16-51 | True exactly when hash, read lowest byte first, is at most the target array read the same way |
| ProofOfWork.ExpandTarget | shawncoin/src/core/consensus.cpp:26-44 | The array writes give mantissa times 256^(size - 3) modulo 2^256 (shifted right for sizes up to 3), highest byte first |
| ProofOfWork.CompactValueOf | shawncoin/src/core/consensus.cpp:26-44 | For size byte n and mantissa bits m: the top bit of m is dropped, the rest times 256^(n - 3), or shifted right for n below 3 |
| ProofOfWork.TargetReadBigEndian | shawncoin/src/core/consensus.cpp:26-44 | Read highest byte first the array is that number modulo 2^256 |
| ProofOfWork.HashWithin | shawncoin/src/core/consensus.cpp:46-50 | The scan from the last byte down decides the comparison of the two little-endian numbers |
| ProofOfWork.DocumentedExactlyWhenSymmetric | shawncoin/src/core/consensus.cpp:26-50 | For a compact target the check decides the documented comparison with mantissa times 256^(size - 3), unbounded, for all hashes exactly when no mantissa is left or it is a palindrome in the middle of the array; from 2^256 on the largest hash is decided wrongly |
| ProofOfWork.OnlyZeroHashExactly | shawncoin/src/core/consensus.cpp:26-50 | Which compact targets the zero hash alone passes: no mantissa left, or all of it shifted beyond 256 bits |
| ProofOfWork.SymmetryExact | shawncoin/src/core/consensus.cpp:26-44 | Which compact targets have palindromic arrays: those two kinds and the mirrored ones |
| Miner.MineBlock | shawncoin/src/mining/miner.cpp:52-86 | The search terminates over the 32-bit wrap, returns the least nonce that passes the validator's check or shows that none does, and what it returns passes every structural check given a coinbase, a mantissa and a fair timestamp |
| Miner.CandidateExact | shawncoin/src/mining/miner.cpp:52-76 | The search sets root, target and nonce and nothing else, and different nonces give different hashed bytes |
| Miner.MinerAccepts | shawncoin/src/mining/miner.cpp:77-82 | The miner's differently written scan decides the same comparison |
| Miner.GetHeaderHash | shawncoin/src/core/types.cpp:65-90 | The pushed header fields are the hashed header |
| MiningLoop.MinedBlockTakenExactly | shawncoin/src/mining/miner.cpp:92-139 | The chain takes a mined block exactly when it has it already, or no other target is prescribed and the pool's transactions are well formed, spend present coins and none twice |
| MiningLoop.MinedBlockPays | shawncoin/src/mining/miner.cpp:92-135 | The first transaction of a mined block pays the reward of the next height to the payout hash, its input script reads as that height, and of the header only root and nonce are the search's |
| MiningLoop.MinedBlockConserves | shawncoin/src/mining/miner.cpp:122-135 | The mined reward meets the supply hypothesis, so the block does exactly when the pool's transactions do |
| MiningLoop.EasyTargetExpected | shawncoin/src/mining/miner.cpp:136-139 | On a chain of easy blocks below height 2015 the easy target is the prescribed one |
| Base58.EncodeBase58 | shawncoin/src/crypto/address.cpp:11-33 | The in-place carry loops and the final spelling compute the specified encoding |
| Base58.DecodeBase58 | shawncoin/src/crypto/address.cpp:35-54 | The loops compute the specified decoding, a NUL matching the alphabet's terminator, empty after a foreign symbol |
| Base58Meaning.ForeignDecodesToNothing | shawncoin/src/crypto/address.cpp:35-39 | A string with any character that is neither in the alphabet nor NUL decodes to nothing and reads as no address |
| Base58Meaning.DecodeDenotes | shawncoin/src/crypto/address.cpp:35-54 | Any other string decodes to a zero byte for each leading '1' and then the bytes, lowest first and without a high zero, of the number its symbols' places spell with base 58 |
| Base58Meaning.EncodeDenotes | shawncoin/src/crypto/address.cpp:11-33 | Any bytes encode as a '1' for each leading zero byte and then the alphabet's symbols of their number with base 58, highest digit first and not zero |
| Base58Meaning.AlphabetExact | shawncoin/src/crypto/address.cpp:9 | The alphabet is the digits but 0, the capitals but I and O, the small letters but l, ascending |
| Base58.DigitsExact | shawncoin/src/crypto/address.cpp:15-26 | The digit vector is below 58 everywhere, has no top zero and equals the consumed bytes in value |
| Base58.TimesByte | shawncoin/src/crypto/address.cpp:16-25 | One pass multiplies the digits by 256 and adds a byte, the carry staying below 256 |
| Base58.TimesDigit | shawncoin/src/crypto/address.cpp:40-49 | One pass multiplies the bytes by 58 and adds a digit, the carry staying within 58 |
| Base58.CanonicalUnique | shawncoin/src/crypto/address.cpp:15-26 | A number has one digit list without a top zero |
| Base58Laws.DecodeEncode | shawncoin/src/crypto/address.cpp:11-54 | Decoding an encoding keeps the leading zeros and reverses the rest |
| Base58Laws.EncodeInjective | shawncoin/src/crypto/address.cpp:11-33 | No two inputs share an encoding |
| Base58Laws.DecodeInvertsExactly | shawncoin/src/crypto/address.cpp:35-54 | Decoding inverts encoding exactly on inputs that are palindromes after their leading zeros |
| Base58Laws.AddressReadsAsExactly | shawncoin/src/crypto/address.cpp:56-89 | The address of one key hash reads as another exactly when version, hash and checksum of the one are those of the other in reverse |
| Base58Laws.AddressRoundTripExactly | shawncoin/src/crypto/address.cpp:56-89 | A key hash survives address encoding and decoding exactly when version, hash and checksum form a palindrome |
| Base58Meaning.AddressReadExactly | shawncoin/src/crypto/address.cpp:56-89 | Any string reads as a 20-byte key hash exactly when it decodes to the byte 63, that hash and the first four bytes of the hash of both |
| Base64.DecodeEncode | shawncoin/src/rpc/server.cpp:16-32 | The server's decoder gives back every byte string the CLI's encoder was given |
| Base64.EncodeDecode | shawncoin/src/rpc/server.cpp:16-32 | Every text of symbols whose length is a multiple of four is the encoding of what it decodes to |
| Base64.EncodedShape | shawncoin/cli/shawncoin-cli.cpp:36-51 | An encoding has four symbols for every three bytes begun, the last one or two '=' as needed |
| Base64.ForeignEnds | shawncoin/src/rpc/server.cpp:22-30 | Decoding ends at the first foreign symbol, whatever follows |
| Base64.Base64Encode | shawncoin/cli/shawncoin-cli.cpp:36-51 | The accumulator loop computes the encoding of section 4 of RFC 4648 although its integer wraps |
| Base64.Base64Decode | shawncoin/src/rpc/server.cpp:16-32 | The accumulator loop decodes the symbols before the first foreign one although its integer wraps |
| Base64.ReadByte | shawncoin/cli/shawncoin-cli.cpp:40-42 | Reading a byte into the wrapped integer keeps the pending low bits |
| Base64.BuildTable | shawncoin/src/rpc/server.cpp:19-20 | The 256-entry table maps each symbol to its value and everything else to -1 |
| Coins.FilterTotal | shawncoin/src/wallet/wallet.cpp:147-169 | In whatever order coins are listed, those that pass a test add up to the total of the coins that pass |
| Coins.TakenExact | shawncoin/src/rpc/api.cpp:324-332 | The greedy prefix is enough exactly when all coins are, and no shorter prefix is |
| WalletSpec.TestsAgree | shawncoin/src/wallet/wallet.cpp:131-169 | Recognition by stored hash and by derived index agree |
| WalletSpec.GatheredIsBalance | shawncoin/src/rpc/api.cpp:299-323 | The coins a payment may spend are exactly those the balance counts, and add up to it |
| WalletSpec.KeyFound | shawncoin/src/wallet/wallet.cpp:46-101 | A signing key is found exactly for the scripts the wallet recognises, and it is the private key at an index whose address reads as the hash the script pays |
| WalletSpec.SignedBytesExact | shawncoin/src/wallet/wallet.cpp:59-69 | What is hashed for signing is the same for two transactions within the parser's limits exactly when they agree but for signatures and keys |
| WalletObjects.Wallet.GenerateNewAddress | shawncoin/src/wallet/wallet.cpp:34-44 | For one seed the stored keys stay the addresses derived at the indices below their number |
| WalletObjects.Wallet.GetBalance | shawncoin/src/wallet/wallet.cpp:147-169 | The balance is the total of the coins some key holds, modulo 2^64 |
| WalletObjects.Wallet.GatherCoins | shawncoin/src/rpc/api.cpp:299-323 | The coins some derived address owns, in listing order |
| Coins.FilterAppend | shawncoin/src/rpc/api.cpp:299-323 | Gathering keeps the listing order: what it keeps of two parts of a listing follows each other |
| WalletObjects.Wallet.SignTransaction | shawncoin/src/wallet/wallet.cpp:59-119 | On success each input carries the signature and public key the library gives for that digest and the key at an index below the count whose address reads as the hash paid by the coin it spends; on failure the inputs before the first that cannot be signed are signed and the others untouched; nothing else changes, so never the id |
| WalletObjects.SelectCoins | shawncoin/src/rpc/api.cpp:324-332 | For any coins and amounts: the loop takes the first coins whose 64-bit sum reaches the 64-bit need, and reports whether one does |
| WalletObjects.TakenFromExact | shawncoin/src/rpc/api.cpp:324-332 | For any coins: no shorter prefix reaches the need in 64 bits, and the prefix taken does unless no coin is left |
| WalletObjects.SelectionIsShortest | shawncoin/src/rpc/api.cpp:324-332 | With a balance below 2^64 that is a shortest sufficient prefix of the wallet's coins, sufficient exactly when the balance is |
| WalletObjects.BuildPayment | shawncoin/src/rpc/api.cpp:299-365 | For any amounts a payment is built exactly when the selected coins cover amount plus fee in 64 bits (with a balance below 2^64, when the balance does): distinct present coins of the wallet, the amount to the destination script, the 64-bit change to the script of the next address; it pays out no more than its coins exactly when amount plus fee does not wrap |
| WalletObjects.PaymentConservesExactly | shawncoin/src/rpc/api.cpp:329-344 | Outputs plus fee equal inputs, except that when amount plus fee reaches 2^64 the outputs exceed the inputs by 2^64 less the fee |
| WalletObjects.WrappedPayment | shawncoin/src/rpc/api.cpp:329-344 | One coin of 1000, amount 150 and fee 2^64 - 100 pay out 1100 |
| WalletObjects.SendToAddress | shawncoin/src/rpc/api.cpp:291-373 | With a signing key library and any amounts, the payment succeeds exactly when the selected coins cover the 64-bit need, there is one, and the outputs are within the money limit; it is such a payment, well formed, every input signed with the key of its coin, and meets the supply hypothesis exactly when amount plus fee does not wrap |
| WalletObjects.PaymentTakenExactly | shawncoin/src/rpc/api.cpp:291-373 | With a balance within the money limit: exactly when the balance covers the 64-bit need, some coin is the wallet's, and after a wrap coins plus 2^64 less fee stay within the limit; for a need below 2^64 only the balance decides, for zero only that there is a coin |
| WalletAddresses.OwnCoinRecognised | shawncoin/src/wallet/wallet.cpp:83-96 | With the program's address reader, a wallet of any number of keys recognises a coin paid to a key hash exactly when that hash's address bytes are those of one of its keys in reverse |
| WalletAddresses.PalindromeRecognised | shawncoin/src/wallet/wallet.cpp:83-96 | So it recognises its own coin when those bytes are a palindrome; with one key, only then |
| WalletAddresses.P2pkhExactly | shawncoin/src/wallet/wallet.cpp:153-155 | The scripts recognised as paying a key hash are exactly 76 a9 14, 20 bytes, 88 ac; these bytes are the hash, zeros when it was not 20 bytes long |
| WalletAddresses.AddressPays | shawncoin/src/rpc/api.cpp:337-342 | Paying an address pays a given key hash exactly when its address bytes are the other's in reverse, or when it is the zero hash and no hash has them |
| WalletAddresses.PaymentReaches | shawncoin/src/rpc/api.cpp:333-357 | Destination and change of a built payment pay the key hashes their addresses were made from exactly in the palindrome case (or by that zero-hash accident) |

## Left out

- Hashing, signatures, encryption, key derivation and random bytes: foreign library code, parameters of the model.
- Concurrency: `addBlock` releases its lock before connecting; the model takes each call as one step.
- Loading from storage: `Blockchain::init` adopts a stored tip without its blocks, and `loadFromDisk` does not recompute keys; file input and output, `saveToDisk` included, go with it.
- Heights are unbounded; the 64-bit wrap of the height would need 2^64 accepted blocks.
- Txid.CoreBytesInjective: one direction only; `TxidLimits` says for which limits ambiguous payments exist, not of every single pair whether it is one.
- Txid.CachedTransaction.GetTxid: the chain model uses computed ids, that is, it takes caches to be coherent; parsing empties the cache and nothing in the program changes a hashed field after an id was asked for.
- Subsidy.GetTotalSupplyUpTo: requires a height below the largest 64-bit number, at which the program's loop does not end.
- Difficulty.NextDifficultyExact: for intervals of 2016 blocks, the only length the program passes; a length of one divides by zero there.
- Utxo.UTXOSet.Put: size and clear are not modelled; they only add easy members.
- WalletObjects.SendToAddress: the memory pool's capacity is not modelled, and the order of a coin listing is arbitrary rather than by outpoint.
- WalletObjects.PaymentTakenExactly: for a balance within the money limit, as every honest run keeps it; beyond it the contracts of the methods speak of the selected coins.
- WalletObjects.Wallet.GenerateNewAddress: one seed; re-seeding a wallet that already holds addresses is not modelled.
- Partly filled objects after a failed parse are not described; the cursor is.
- The vectors that grow or are rewritten in loops are values passed in and out of methods, so sharing of buffers is not modelled.
- The memory pool, networking, the RPC dispatcher, Stratum, mnemonics, hex, floating-point hash rates, logging and configuration.
