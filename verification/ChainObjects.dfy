/** The chain and its storage as the program keeps them: objects whose methods make the steps of Chain. */
module ChainObjects {
  import opened Bytes
  import opened Types
  import opened Codec
  import opened CodecLoops
  import opened Txid
  import opened Consensus
  import opened Difficulty
  import opened Utxo
  import opened Chain

  class MemoryChainState {
    var blocks: map<Hash, seq<byte>>
    var bestHash: Hash
    var bestHeight: nat

    constructor ()
      ensures Contents() == EMPTY_STORE
    {
      blocks, bestHash, bestHeight := map[], ZERO_HASH, 0;
    }

    function Contents(): Store
      reads this
    {
      Store(blocks, bestHash, bestHeight)
    }

    method PutBlock(hash: Hash, b: Block)
      modifies this
      ensures Contents() == old(Contents()).(blocks := old(blocks)[hash := BlockBytes(b)])
    {
      var data := SerializeBlock(b);
      blocks := blocks[hash := data];
    }

    method GetBlock(hash: Hash) returns (ok: bool, b: Block)
      ensures ok <==> hash in blocks && ParseBlock(blocks[hash]).Done?
      ensures ok ==> b == ParseBlock(blocks[hash]).value
    {
      if hash !in blocks {
        b := Block(BlockHeader(1, ZERO_HASH, ZERO_HASH, 0, 0, 0), []);
        return false, b;
      }
      ok, b := DeserializeBlock(blocks[hash]);
    }

    method SetBestBlock(hash: Hash, height: nat)
      modifies this
      ensures Contents() == old(Contents()).(bestHash := hash, bestHeight := height)
    {
      bestHash, bestHeight := hash, height;
    }

    method GetBestBlock() returns (hash: Hash, height: nat)
      ensures hash == bestHash && height == bestHeight
    {
      return bestHash, bestHeight;
    }
  }

  class Blockchain {
    const H: HashFn
    const utxo: UTXOSet
    var bestBlockHash: Hash
    var height: nat
    var blockCache: map<Hash, Block>
    var heightIndex: map<nat, Hash>
    var chainState: MemoryChainState?

    function Abstract(): State
      reads this, utxo, chainState
    {
      State(height, bestBlockHash, blockCache, heightIndex, utxo.coins,
            if chainState == null then None else Some(chainState.Contents()))
    }

    constructor (H: HashFn)
      ensures this.H == H && fresh(utxo) && chainState == null
      ensures Abstract() == Genesis(H, false)
    {
      this.H := H;
      utxo := new UTXOSet();
      var genesis := GenesisBlock(H);
      var hash := BlockHash(H, genesis);
      bestBlockHash, height, chainState := hash, 0, null;
      blockCache, heightIndex := map[hash := genesis], map[0 := hash];
      new;
      var _ := ConnectBlockUTXO(H, genesis, utxo);
      assert Abstract() == Start(H, genesis, false);
    }

    method SetChainState(state: MemoryChainState)
      modifies this`chainState
      ensures chainState == state
      ensures Abstract() == old(Abstract()).(store := Some(state.Contents()))
    {
      chainState := state;
    }

    method GetBlockByHeight(h: nat) returns (b: Option<Block>)
      ensures b == BlockAt(Abstract(), h)
    {
      if h !in heightIndex { return None; }
      var hash := heightIndex[h];
      if hash in blockCache { return Some(blockCache[hash]); }
      return None;
    }

    /** The cache first, then whatever the storage can still parse. */
    method GetBlock(hash: Hash) returns (b: Option<Block>)
      ensures hash in blockCache ==> b == Some(blockCache[hash])
      ensures hash !in blockCache ==>
                b == if chainState != null && hash in chainState.blocks && ParseBlock(chainState.blocks[hash]).Done?
                     then Some(ParseBlock(chainState.blocks[hash]).value) else None
    {
      if hash in blockCache { return Some(blockCache[hash]); }
      if chainState != null {
        var ok, found := chainState.GetBlock(hash);
        if ok { return Some(found); }
      }
      return None;
    }

    method CheckDifficulty(header: BlockHeader) returns (ok: bool)
      ensures ok == DifficultyOk(Abstract(), header)
    {
      if height == 0 { return true; }
      var prev := GetBlockByHeight(height);
      if prev.None? { return true; }
      var prevTarget := prev.value.header.difficultyTarget;
      var nextHeight := height + 1;
      if nextHeight % DIFFICULTY_INTERVAL != 0 { return header.difficultyTarget == prevTarget; }
      if height < DIFFICULTY_INTERVAL - 1 { return header.difficultyTarget == prevTarget; }
      var first := GetBlockByHeight(height - (DIFFICULTY_INTERVAL - 1));
      if first.None? { return header.difficultyTarget == prevTarget; }
      var expected := AdaptiveNextDifficulty(
        prevTarget, prev.value.header.timestamp, first.value.header.timestamp, DIFFICULTY_INTERVAL, nextHeight);
      return header.difficultyTarget == expected;
    }

    method CheckInputs(ins: seq<TxInput>) returns (ok: bool)
      ensures ok == (AsSet(Spends(ins)) <= utxo.coins.Keys)
    {
      ghost var ops := Spends(ins);
      for j := 0 to |ins|
        invariant forall k :: 0 <= k < j ==> ops[k] in utxo.coins
      {
        var present := utxo.Has(OutPoint(ins[j].prevTxHash, ins[j].outputIndex));
        if !present {
          assert ops[j] in AsSet(ops);
          return false;
        }
      }
      return true;
    }

    method CheckTransactions(txs: seq<Transaction>) returns (ok: bool)
      ensures ok == TransactionsOk(utxo.coins, txs)
    {
      var i := 1;
      while i < |txs|
        invariant 1 <= i
        invariant forall k :: 1 <= k < i && k < |txs| ==>
                    ValidTransaction(txs[k]) && AsSet(Spends(txs[k].inputs)) <= utxo.coins.Keys
      {
        ok := ValidateTransactionStructure(txs[i]);
        if !ok { return; }
        ok := CheckInputs(txs[i].inputs);
        if !ok { return; }
        i := i + 1;
      }
      return true;
    }

    method ConnectBlock(b: Block, newHeight: nat, now: u64) returns (ok: bool)
      modifies this, utxo, chainState
      ensures chainState == old(chainState)
      ensures (ok, Abstract()) == Chain.ConnectBlock(H, old(Abstract()), b, newHeight, now)
    {
      ok := ValidateBlockStructure(H, b, now);
      if !ok { return; }
      ok := CheckDifficulty(b.header);
      if !ok { return; }
      ok := CheckTransactions(b.transactions);
      if !ok { return; }
      ok := ConnectBlockUTXO(H, b, utxo);
      if !ok { return; }
      var hash := BlockHash(H, b);
      blockCache := blockCache[hash := b];
      heightIndex := heightIndex[newHeight := hash];
      bestBlockHash := hash;
      height := newHeight;
      if chainState != null {
        chainState.PutBlock(hash, b);
        chainState.SetBestBlock(hash, newHeight);
      }
    }

    method AddBlock(b: Block, newHeight: nat, now: u64) returns (ok: bool)
      modifies this, utxo, chainState
      ensures chainState == old(chainState)
      ensures (ok, Abstract()) == Chain.AddBlock(H, old(Abstract()), b, newHeight, now)
    {
      var hash := BlockHash(H, b);
      if hash in blockCache { return true; }
      if newHeight != height + 1 { return false; }
      if b.header.previousHash != bestBlockHash { return false; }
      ok := ConnectBlock(b, newHeight, now);
    }
  }
}
