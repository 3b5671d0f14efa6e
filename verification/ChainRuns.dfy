/** What every run of submitted blocks keeps: links, coins, stored copies and targets. */
module ChainRuns {
  import opened Bytes
  import opened Types
  import opened Codec
  import opened CodecSafety
  import opened Txid
  import opened Difficulty
  import opened Utxo
  import opened Chain

  datatype Submission = Submission(block: Block, height: nat, now: u64)

  ghost function Step(H: HashFn, s: State, x: Submission): State {
    AddBlock(H, s, x.block, x.height, x.now).1
  }

  /** The state after any sequence of submissions, refused ones included. */
  ghost function Run(H: HashFn, s: State, subs: seq<Submission>): State {
    if subs == [] then s else Step(H, Run(H, s, subs[..|subs| - 1]), subs[|subs| - 1])
  }

  // ---------- acceptance and refusal ----------

  /** The guards before the coins are touched. */
  ghost predicate Reaches(H: HashFn, s: State, x: Submission) {
    && BlockHash(H, x.block) !in s.cache
    && x.height == s.height + 1 && x.block.header.previousHash == s.best
    && Admissible(H, s, x.block, x.now)
  }

  lemma {:induction false} InputsPresent(m: UtxoMap, txs: seq<Transaction>)
    requires forall tx :: tx in txs ==> AsSet(Spends(tx.inputs)) <= m.Keys
    ensures AsSet(InputsOf(txs)) <= m.Keys
  {
    if txs != [] {
      InputsPresent(m, txs[1..]);
      forall op | op in AsSet(InputsOf(txs))
        ensures op in m
      {
        if op in Spends(txs[0].inputs) {
          assert op in AsSet(Spends(txs[0].inputs));
        } else {
          assert op in AsSet(InputsOf(txs[1..]));
        }
      }
    }
  }

  lemma AdmissibleInputsPresent(H: HashFn, s: State, b: Block, now: u64)
    requires Admissible(H, s, b, now)
    ensures AsSet(BlockInputs(b)) <= s.utxo.Keys
  {
    InputsPresent(s.utxo, b.transactions[1..]);
  }

  /** A block that passes the guards connects exactly when it names no outpoint twice. */
  lemma AcceptedExactly(H: HashFn, s: State, x: Submission)
    ensures Accepted(H, s, x.block, x.height, x.now) <==> Reaches(H, s, x) && Distinct(BlockInputs(x.block))
  {
    if Reaches(H, s, x) {
      AdmissibleInputsPresent(H, s, x.block, x.now);
      ConnectExact(H, s.utxo, x.block);
    }
  }

  lemma FailedSpendLoses(m: UtxoMap, ops: seq<OutPoint>)
    requires ops != [] && ops[0] in m
    ensures ops[0] !in SpendAll(m, ops).1
  {
    SpendAllExact(m - {ops[0]}, ops[1..]);
  }

  /**
   A refused block leaves every field as it was, except when it passed all guards and names an outpoint
   twice: then coins it spent before the repetition are gone, and nothing else changed.
   */
  lemma RefusalLeavesStateExactly(H: HashFn, s: State, x: Submission)
    requires !AddBlock(H, s, x.block, x.height, x.now).0
    ensures Step(H, s, x) == s <==> !(Reaches(H, s, x) && !Distinct(BlockInputs(x.block)))
    ensures SubMap(Step(H, s, x).utxo, s.utxo) && Step(H, s, x).(utxo := s.utxo) == s
  {
    if Reaches(H, s, x) {
      AdmissibleInputsPresent(H, s, x.block, x.now);
      ConnectExact(H, s.utxo, x.block);
      var ops := BlockInputs(x.block);
      if ops != [] {
        assert ops[0] in AsSet(ops);
        FailedSpendLoses(s.utxo, ops);
      }
    }
  }

  // ---------- the chain as a list of blocks ----------

  /** The hash of a block as a plain function, so that proofs about links do not look inside headers. */
  function HashOf(H: HashFn): Block -> Hash { (b: Block) => BlockHash(H, b) }

  /** What `t` differs in from `s` once a block was put on top. */
  ghost predicate Extended(hash: Block -> Hash, s: State, t: State, b: Block) {
    && hash(b) !in s.cache && b.header.previousHash == s.best
    && t.height == s.height + 1 && t.best == hash(b)
    && t.cache == s.cache[hash(b) := b] && t.index == s.index[s.height + 1 := hash(b)]
  }

  lemma ExtendIsExtended(H: HashFn, s: State, b: Block, coins: UtxoMap)
    requires BlockHash(H, b) !in s.cache && b.header.previousHash == s.best
    ensures Extended(HashOf(H), s, Extend(H, s, b, s.height + 1, coins), b)
  {
  }

  lemma ConnectStep(H: HashFn, s: State, b: Block, height: nat, now: u64)
    requires ConnectBlock(H, s, b, height, now).0
    ensures ConnectBlock(H, s, b, height, now).1 == Extend(H, s, b, height, ConnectUtxo(H, s.utxo, b).1)
  {
  }

  lemma AcceptedStep(H: HashFn, s: State, x: Submission)
    requires Accepted(H, s, x.block, x.height, x.now)
    ensures Step(H, s, x) == Extend(H, s, x.block, s.height + 1, ConnectUtxo(H, s.utxo, x.block).1)
  {
    ConnectStep(H, s, x.block, x.height, x.now);
  }

  /** A step that accepts nothing changes no field but, at most, the coins. */
  lemma OtherStep(H: HashFn, s: State, x: Submission)
    requires !Accepted(H, s, x.block, x.height, x.now)
    ensures Step(H, s, x) == s.(utxo := Step(H, s, x).utxo)
  {
  }

  lemma StepExtends(H: HashFn, s: State, x: Submission)
    requires Accepted(H, s, x.block, x.height, x.now)
    ensures Reaches(H, s, x) && Distinct(BlockInputs(x.block))
    ensures Extended(HashOf(H), s, Step(H, s, x), x.block)
    ensures Step(H, s, x).utxo == ConnectUtxo(H, s.utxo, x.block).1
    ensures Step(H, s, x).store == StoreBlock(H, s.store, x.block, s.height + 1)
  {
    AcceptedExactly(H, s, x);
    AcceptedStep(H, s, x);
    ExtendIsExtended(H, s, x.block, ConnectUtxo(H, s.utxo, x.block).1);
  }

  /** The blocks of the chain after a run that starts with the blocks `bs`. */
  ghost function ChainAfter(H: HashFn, s: State, bs: seq<Block>, subs: seq<Submission>): seq<Block> {
    if subs == [] then bs else
    var n := |subs| - 1;
    var cs := ChainAfter(H, s, bs, subs[..n]);
    if Accepted(H, Run(H, s, subs[..n]), subs[n].block, subs[n].height, subs[n].now)
    then cs + [subs[n].block] else cs
  }

  /** Each block names the one before it. */
  ghost predicate Linked(hash: Block -> Hash, bs: seq<Block>) {
    forall i, j :: 0 <= i < |bs| && j == i + 1 < |bs| ==> bs[j].header.previousHash == hash(bs[i])
  }

  /** Different places hold blocks with different hashes. */
  ghost predicate Unique(hash: Block -> Hash, bs: seq<Block>) {
    forall i, j :: 0 <= i < j < |bs| ==> hash(bs[i]) != hash(bs[j])
  }

  /** The cache holds the blocks of the list under their hashes, and nothing else. */
  ghost predicate Cached(hash: Block -> Hash, cache: map<Hash, Block>, bs: seq<Block>) {
    && (forall h :: 0 <= h < |bs| ==> hash(bs[h]) in cache && cache[hash(bs[h])] == bs[h])
    && (forall k :: k in cache ==> exists h :: 0 <= h < |bs| && hash(bs[h]) == k)
  }

  /** The index holds their hashes under their places, and nothing else. */
  ghost predicate Indexed(hash: Block -> Hash, index: map<nat, Hash>, bs: seq<Block>) {
    && (forall h: nat :: h in index <==> h < |bs|)
    && (forall h: nat :: h < |bs| ==> index[h] == hash(bs[h]))
  }

  /** The four fields of the chain state say the same as one list of linked blocks. */
  ghost predicate Holds(hash: Block -> Hash, s: State, bs: seq<Block>) {
    && |bs| == s.height + 1 && s.best == hash(bs[s.height])
    && Indexed(hash, s.index, bs) && Cached(hash, s.cache, bs)
    && Linked(hash, bs) && Unique(hash, bs)
  }

  lemma AppendCached(hash: Block -> Hash, cache: map<Hash, Block>, bs: seq<Block>, b: Block)
    requires Cached(hash, cache, bs) && hash(b) !in cache
    ensures Cached(hash, cache[hash(b) := b], bs + [b])
  {
    var cs, more := bs + [b], cache[hash(b) := b];
    forall k | k in more
      ensures exists h :: 0 <= h < |cs| && hash(cs[h]) == k
    {
      if k == hash(b) {
        assert cs[|bs|] == b;
      } else {
        var h :| 0 <= h < |bs| && hash(bs[h]) == k;
        assert cs[h] == bs[h];
      }
    }
    forall h | 0 <= h < |cs|
      ensures hash(cs[h]) in more && more[hash(cs[h])] == cs[h]
    {
      if h < |bs| {
        assert cs[h] == bs[h];
      }
    }
  }

  lemma AppendUnique(hash: Block -> Hash, cache: map<Hash, Block>, bs: seq<Block>, b: Block)
    requires Cached(hash, cache, bs) && hash(b) !in cache && Unique(hash, bs)
    ensures Unique(hash, bs + [b])
  {
    var cs := bs + [b];
    forall i, j | 0 <= i < j < |cs|
      ensures hash(cs[i]) != hash(cs[j])
    {
      assert cs[i] == bs[i] && hash(bs[i]) in cache;
      if j < |bs| {
        assert cs[j] == bs[j];
      }
    }
  }

  lemma AppendLinked(hash: Block -> Hash, bs: seq<Block>, b: Block)
    requires Linked(hash, bs) && bs != [] && b.header.previousHash == hash(bs[|bs| - 1])
    ensures Linked(hash, bs + [b])
  {
    var cs := bs + [b];
    forall i, j | 0 <= i < |cs| && j == i + 1 < |cs|
      ensures cs[j].header.previousHash == hash(cs[i])
    {
      assert cs[i] == bs[i];
      if j < |bs| {
        assert cs[j] == bs[j];
      }
    }
  }

  lemma AppendIndexed(hash: Block -> Hash, index: map<nat, Hash>, bs: seq<Block>, b: Block)
    requires Indexed(hash, index, bs)
    ensures Indexed(hash, index[|bs| := hash(b)], bs + [b])
  {
  }

  lemma ExtendedHolds(hash: Block -> Hash, s: State, bs: seq<Block>, t: State, b: Block)
    requires Holds(hash, s, bs) && Extended(hash, s, t, b)
    ensures Holds(hash, t, bs + [b])
  {
    AppendCached(hash, s.cache, bs, b);
    AppendUnique(hash, s.cache, bs, b);
    AppendLinked(hash, bs, b);
    AppendIndexed(hash, s.index, bs, b);
  }

  lemma StartHolds(H: HashFn, g: Block, stored: bool)
    ensures Holds(HashOf(H), Start(H, g, stored), [g])
  {
  }

  /** Every run keeps height, tip, cache and height index in step with one linked list of blocks. */
  lemma {:induction false} RunHolds(H: HashFn, s: State, bs: seq<Block>, subs: seq<Submission>)
    requires Holds(HashOf(H), s, bs)
    ensures Holds(HashOf(H), Run(H, s, subs), ChainAfter(H, s, bs, subs))
    ensures bs <= ChainAfter(H, s, bs, subs)
  {
    if subs != [] {
      var n := |subs| - 1;
      var t, x, cs := Run(H, s, subs[..n]), subs[n], ChainAfter(H, s, bs, subs[..n]);
      RunHolds(H, s, bs, subs[..n]);
      if Accepted(H, t, x.block, x.height, x.now) {
        StepExtends(H, t, x);
        ExtendedHolds(HashOf(H), t, cs, Step(H, t, x), x.block);
      } else {
        OtherStep(H, t, x);
      }
    }
  }

  /** The blocks of the chain after a run from genesis. */
  ghost function ChainOf(H: HashFn, stored: bool, subs: seq<Submission>): seq<Block> {
    ChainAfter(H, Genesis(H, stored), [GenesisBlock(H)], subs)
  }

  lemma GenesisRunHolds(H: HashFn, stored: bool, subs: seq<Submission>)
    ensures Holds(HashOf(H), Run(H, Genesis(H, stored), subs), ChainOf(H, stored, subs))
    ensures ChainOf(H, stored, subs)[0] == GenesisBlock(H)
  {
    StartHolds(H, GenesisBlock(H), stored);
    RunHolds(H, Genesis(H, stored), [GenesisBlock(H)], subs);
  }

  /** Following previous-hash links n times through the cache. */
  function WalkBack(cache: map<Hash, Block>, from: Hash, n: nat): Option<Hash>
    decreases n
  {
    if n == 0 then Some(from)
    else if from !in cache then None
    else WalkBack(cache, cache[from].header.previousHash, n - 1)
  }

  lemma {:induction false} WalkFollowsChain(
      hash: Block -> Hash, cache: map<Hash, Block>, bs: seq<Block>, h: nat, n: nat)
    requires Cached(hash, cache, bs) && Linked(hash, bs) && n <= h < |bs|
    ensures WalkBack(cache, hash(bs[h]), n) == Some(hash(bs[h - n]))
    decreases n
  {
    if n > 0 {
      assert bs[h].header.previousHash == hash(bs[h - 1]);
      WalkFollowsChain(hash, cache, bs, h - 1, n - 1);
    }
  }

  /** From the tip of any run, genesis is reached after exactly as many steps as the height says. */
  lemma WalkReachesGenesis(H: HashFn, stored: bool, subs: seq<Submission>, n: nat)
    requires n <= Run(H, Genesis(H, stored), subs).height
    ensures var s := Run(H, Genesis(H, stored), subs);
            WalkBack(s.cache, s.best, n) == Some(HashOf(H)(GenesisBlock(H))) <==> n == s.height
  {
    var s, bs, hash := Run(H, Genesis(H, stored), subs), ChainOf(H, stored, subs), HashOf(H);
    GenesisRunHolds(H, stored, subs);
    WalkFollowsChain(hash, s.cache, bs, s.height, n);
    if n < s.height {
      assert hash(bs[0]) != hash(bs[s.height - n]);
    }
  }

  // ---------- coins are a replay of the chain ----------

  /** Connecting blocks one after another from no coins. */
  function Replay(H: HashFn, blocks: seq<Block>): UtxoMap {
    if blocks == [] then map[]
    else ConnectUtxo(H, Replay(H, blocks[..|blocks| - 1]), blocks[|blocks| - 1]).1
  }

  lemma ReplayOne(H: HashFn, blocks: seq<Block>, b: Block)
    ensures Replay(H, blocks + [b]) == ConnectUtxo(H, Replay(H, blocks), b).1
  {
    assert (blocks + [b])[..|blocks|] == blocks;
  }

  lemma {:induction false} RunReplays(H: HashFn, s: State, bs: seq<Block>, subs: seq<Submission>)
    requires s.utxo == Replay(H, bs)
    requires forall x :: x in subs ==> Distinct(BlockInputs(x.block))
    ensures Run(H, s, subs).utxo == Replay(H, ChainAfter(H, s, bs, subs))
  {
    if subs != [] {
      var n := |subs| - 1;
      var t, x := Run(H, s, subs[..n]), subs[n];
      RunReplays(H, s, bs, subs[..n]);
      if Accepted(H, t, x.block, x.height, x.now) {
        StepExtends(H, t, x);
        ReplayOne(H, ChainAfter(H, s, bs, subs[..n]), x.block);
      } else if !AddBlock(H, t, x.block, x.height, x.now).0 {
        RefusalLeavesStateExactly(H, t, x);
      }
    }
  }

  /**
   Without repeated outpoints in a submitted block, the coins after any run are those obtained by
   connecting the blocks of the chain in order, whatever was refused in between.
   */
  lemma CoinsAreReplay(H: HashFn, stored: bool, subs: seq<Submission>)
    requires forall x :: x in subs ==> Distinct(BlockInputs(x.block))
    ensures Holds(HashOf(H), Run(H, Genesis(H, stored), subs), ChainOf(H, stored, subs))
    ensures Run(H, Genesis(H, stored), subs).utxo == Replay(H, ChainOf(H, stored, subs))
  {
    GenesisRunHolds(H, stored, subs);
    ReplayOne(H, [], GenesisBlock(H));
    assert [] + [GenesisBlock(H)] == [GenesisBlock(H)];
    RunReplays(H, Genesis(H, stored), [GenesisBlock(H)], subs);
  }

  // ---------- stored copies ----------

  /** The storage holds the bytes of every block but the first, and the tip once there is another. */
  ghost predicate Mirrored(first: Hash, s: State) {
    s.store.Some? ==>
      var blocks := s.store.value.blocks;
      && (forall k :: k in blocks <==> k in s.cache && k != first)
      && (forall k :: k in blocks ==> blocks[k] == BlockBytes(s.cache[k]))
      && (s.height > 0 ==> s.store.value.bestHash == s.best && s.store.value.bestHeight == s.height)
  }

  lemma ExtendedMirrored(first: Hash, hash: Block -> Hash, s: State, t: State, b: Block)
    requires Mirrored(first, s) && first in s.cache && Extended(hash, s, t, b)
    requires t.store == if s.store.None? then None else
               Some(Store(s.store.value.blocks[hash(b) := BlockBytes(b)], hash(b), s.height + 1))
    ensures Mirrored(first, t)
  {
  }

  lemma {:induction false} RunMirrored(H: HashFn, first: Hash, s: State, subs: seq<Submission>)
    requires Mirrored(first, s) && first in s.cache
    ensures Mirrored(first, Run(H, s, subs)) && first in Run(H, s, subs).cache
    ensures Run(H, s, subs).store.Some? <==> s.store.Some?
  {
    if subs != [] {
      var n := |subs| - 1;
      var t, x := Run(H, s, subs[..n]), subs[n];
      RunMirrored(H, first, s, subs[..n]);
      if Accepted(H, t, x.block, x.height, x.now) {
        StepExtends(H, t, x);
        ExtendedMirrored(first, HashOf(H), t, Step(H, t, x), x.block);
      } else {
        OtherStep(H, t, x);
      }
    }
  }

  /**
   With a storage attached, every block after genesis that the chain serves can be read back from the
   storage as the same block exactly when it is within the parser's limits.
   */
  lemma StorageAgreesExactly(H: HashFn, subs: seq<Submission>, k: Hash)
    requires k in Run(H, Genesis(H, true), subs).cache && k != HashOf(H)(GenesisBlock(H))
    requires |BlockBytes(Run(H, Genesis(H, true), subs).cache[k])| < SIZE_LIMIT
    ensures var s := Run(H, Genesis(H, true), subs);
            && s.store.Some? && k in s.store.value.blocks
            && ((exists rest :: ParseBlock(s.store.value.blocks[k]) == Done(s.cache[k], rest))
                <==> FitsBlock(s.cache[k]))
  {
    RunMirrored(H, HashOf(H)(GenesisBlock(H)), Genesis(H, true), subs);
    StoredBlockReadableIff(Run(H, Genesis(H, true), subs).cache[k]);
  }

  // ---------- targets ----------

  /** The target at height h as the blocks below it determine it. */
  ghost predicate TargetDetermined(bs: seq<Block>, h: nat)
    requires 2 <= h < |bs|
  {
    var prev := bs[h - 1].header;
    bs[h].header.difficultyTarget ==
      if h % 2016 != 0 then prev.difficultyTarget
      else AdaptiveNextDifficulty(prev.difficultyTarget, prev.timestamp, bs[h - 2016].header.timestamp, 2016, h)
  }

  ghost predicate TargetsDetermined(bs: seq<Block>) {
    forall h :: 2 <= h < |bs| ==> TargetDetermined(bs, h)
  }

  lemma ChainedBlockAt(hash: Block -> Hash, s: State, bs: seq<Block>, h: nat)
    requires Holds(hash, s, bs) && h < |bs|
    ensures BlockAt(s, h) == Some(bs[h])
  {
  }

  lemma ExpectedWithin(hash: Block -> Hash, s: State, bs: seq<Block>)
    requires Holds(hash, s, bs) && s.height > 0 && (s.height + 1) % 2016 != 0
    ensures ExpectedTarget(s) == Some(bs[s.height].header.difficultyTarget)
  {
    ChainedBlockAt(hash, s, bs, s.height);
  }

  /** The retarget rule with the two blocks it reads as plain values. */
  lemma RetargetRule(s: State, prev: Block, first: Block)
    requires s.height >= 2015 && (s.height + 1) % 2016 == 0
    requires BlockAt(s, s.height) == Some(prev) && BlockAt(s, s.height - 2015) == Some(first)
    ensures ExpectedTarget(s) == Some(AdaptiveNextDifficulty(
              prev.header.difficultyTarget, prev.header.timestamp, first.header.timestamp, 2016, s.height + 1))
  {
  }

  lemma ExpectedAtRetarget(hash: Block -> Hash, s: State, bs: seq<Block>)
    requires Holds(hash, s, bs) && s.height >= 2015 && (s.height + 1) % 2016 == 0
    ensures var prev := bs[s.height].header;
            ExpectedTarget(s) == Some(AdaptiveNextDifficulty(
              prev.difficultyTarget, prev.timestamp, bs[s.height - 2015].header.timestamp, 2016, s.height + 1))
  {
    ChainedBlockAt(hash, s, bs, s.height);
    ChainedBlockAt(hash, s, bs, s.height - 2015);
    RetargetRule(s, bs[s.height], bs[s.height - 2015]);
  }

  lemma NextTargetDetermined(hash: Block -> Hash, s: State, bs: seq<Block>, b: Block)
    requires Holds(hash, s, bs) && DifficultyOk(s, b.header) && s.height > 0
    ensures TargetDetermined(bs + [b], |bs|)
  {
    var cs := bs + [b];
    assert cs[s.height] == bs[s.height];
    if (s.height + 1) % 2016 == 0 {
      ExpectedAtRetarget(hash, s, bs);
      assert cs[s.height - 2015] == bs[s.height - 2015];
    } else {
      ExpectedWithin(hash, s, bs);
    }
  }

  lemma AppendKeepsTargets(bs: seq<Block>, b: Block)
    requires TargetsDetermined(bs)
    requires |bs| >= 2 ==> TargetDetermined(bs + [b], |bs|)
    ensures TargetsDetermined(bs + [b])
  {
    var cs := bs + [b];
    forall h | 2 <= h < |cs|
      ensures TargetDetermined(cs, h)
    {
      if h < |bs| {
        assert TargetDetermined(bs, h);
        assert cs[h] == bs[h] && cs[h - 1] == bs[h - 1];
        if h >= 2016 {
          assert cs[h - 2016] == bs[h - 2016];
        }
      }
    }
  }

  /**
   In every run each target from height 2 on is the one before it, and at each multiple of 2016 the
   retarget of the blocks one and 2016 heights below.
   */
  lemma {:induction false} RunTargets(H: HashFn, s: State, bs: seq<Block>, subs: seq<Submission>)
    requires Holds(HashOf(H), s, bs) && TargetsDetermined(bs)
    ensures TargetsDetermined(ChainAfter(H, s, bs, subs))
  {
    if subs != [] {
      var n := |subs| - 1;
      var t, x, cs := Run(H, s, subs[..n]), subs[n], ChainAfter(H, s, bs, subs[..n]);
      RunTargets(H, s, bs, subs[..n]);
      if Accepted(H, t, x.block, x.height, x.now) {
        RunHolds(H, s, bs, subs[..n]);
        StepExtends(H, t, x);
        if t.height > 0 {
          NextTargetDetermined(HashOf(H), t, cs, x.block);
        }
        AppendKeepsTargets(cs, x.block);
      }
    }
  }

  /** Within an interval of 2016 heights the target never changes. */
  lemma {:induction false} IntervalConstant(bs: seq<Block>, low: nat, high: nat)
    requires TargetsDetermined(bs)
    requires 1 <= low <= high < |bs| && low / 2016 == high / 2016
    ensures bs[low].header.difficultyTarget == bs[high].header.difficultyTarget
    decreases high
  {
    if low < high {
      assert TargetDetermined(bs, high);
      IntervalConstant(bs, low, high - 1);
    }
  }

  lemma EasyListEnds(bs: seq<Block>)
    requires TargetsDetermined(bs) && bs != [] && bs[0].header.timestamp == GENESIS_TIME
    requires forall h :: 1 <= h < |bs| ==> bs[h].header.difficultyTarget == EASY_MINE_DIFFICULTY
    ensures |bs| <= 2016
  {
    if |bs| > 2016 {
      assert TargetDetermined(bs, 2016);
      EasyTargetRepeatedExactly(bs[2015].header.timestamp, bs[0].header.timestamp, 2016);
    }
  }

  /**
   A chain mined only with the fixed easy target ends at height 2015, whatever its timestamps: the first
   retarget asks for something else.
   */
  lemma EasyChainEnds(H: HashFn, stored: bool, subs: seq<Submission>)
    requires forall h :: 1 <= h < |ChainOf(H, stored, subs)| ==>
               ChainOf(H, stored, subs)[h].header.difficultyTarget == EASY_MINE_DIFFICULTY
    ensures Run(H, Genesis(H, stored), subs).height <= 2015
  {
    GenesisRunHolds(H, stored, subs);
    StartHolds(H, GenesisBlock(H), stored);
    RunTargets(H, Genesis(H, stored), [GenesisBlock(H)], subs);
    EasyListEnds(ChainOf(H, stored, subs));
  }
}
