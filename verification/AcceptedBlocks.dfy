/** What every block a chain accepts satisfies, and what a header therefore commits to. */
module AcceptedBlocks {
  import opened Bytes
  import opened Types
  import opened Txid
  import opened Merkle
  import opened ProofOfWork
  import opened Consensus
  import opened Utxo
  import opened Chain
  import opened ChainRuns

  // ---------- one header, one list of payments ----------

  /**
   Two blocks with one header and one transaction count that both pass the structural checks have the same
   payments, or two of the strings hashed for them collide.
   */
  lemma ValidatedBlocksAgree(H: HashFn, a: Block, b: Block, now: u64, now': u64) returns (x: seq<byte>, y: seq<byte>)
    requires ValidStructure(H, a, now) && ValidStructure(H, b, now')
    requires a.header == b.header && |a.transactions| == |b.transactions|
    requires forall tx :: tx in a.transactions || tx in b.transactions ==> ByteSized(CoreOf(tx))
    ensures (forall i :: 0 <= i < |a.transactions| ==> CoreOf(a.transactions[i]) == CoreOf(b.transactions[i]))
         || (&& x in BlockHashed(H, a.transactions) && y in BlockHashed(H, b.transactions)
             && Collide(H, x, y))
  {
    x, y := HeaderCommits(H, a.transactions, b.transactions);
  }

  // ---------- every accepted block ----------

  /** One input, naming the zero hash and the largest index. */
  predicate OpensWithReward(b: Block) {
    && b.transactions != [] && |b.transactions[0].inputs| == 1
    && b.transactions[0].inputs[0].prevTxHash == Zeros(32)
    && b.transactions[0].inputs[0].outputIndex == 0xffff_ffff
  }

  /** The header's root is that of the tree over the ids of the block's own transactions. */
  ghost predicate RootsItself(H: HashFn, b: Block) {
    exists ids: seq<Hash> ::
      && |ids| == |b.transactions| > 0
      && (forall i :: 0 <= i < |ids| ==> ids[i] == H(Preimage(b.transactions[i])))
      && Width(|ids|, Depth(|ids|)) == 1
      && b.header.merkleRoot == TreeHash(H, ids, Depth(|ids|), 0)
  }

  /** Its hash is within its own target array, both read lowest byte first, and the mantissa is not zero. */
  ghost predicate MeetsOwnTarget(H: HashFn, b: Block) {
    && FromLE(H(HashedHeader(b.header))) <= FromLE(Target(b.header.difficultyTarget))
    && b.header.difficultyTarget % 0x80_0000 != 0
  }

  /** It is stamped at most two hours after the clock, counted in 64 bits. */
  predicate NotFromTheFuture(b: Block, now: u64) {
    b.header.timestamp <= (now + 7200) % 0x1_0000_0000_0000_0000
  }

  /** Every transaction after the first spends and pays something, and no more than the money limit. */
  predicate PaysWithinLimit(b: Block) {
    forall i :: 1 <= i < |b.transactions| ==>
      && |b.transactions[i].inputs| > 0 && |b.transactions[i].outputs| > 0
      && SumOutputs(b.transactions[i].outputs) <= MAX_MONEY
  }

  /** What a block must satisfy whatever the chain holds. */
  ghost predicate Sound(H: HashFn, b: Block, now: u64) {
    && OpensWithReward(b) && RootsItself(H, b) && MeetsOwnTarget(H, b) && NotFromTheFuture(b, now)
    && PaysWithinLimit(b)
  }

  lemma OwnRootExactly(H: HashFn, b: Block)
    requires b.transactions != []
    ensures RootsItself(H, b) <==> b.header.merkleRoot == MerkleRoot(H, b.transactions)
  {
    var ids := Txids(H, b.transactions);
    RootIsTree(H, ids);
    if RootsItself(H, b) {
      var other: seq<Hash> :|
        && |other| == |b.transactions| > 0
        && (forall i :: 0 <= i < |other| ==> other[i] == H(Preimage(b.transactions[i])))
        && Width(|other|, Depth(|other|)) == 1
        && b.header.merkleRoot == TreeHash(H, other, Depth(|other|), 0);
      SameIds(H, b.transactions, other);
    }
    if b.header.merkleRoot == MerkleRoot(H, b.transactions) {
      assert forall i :: 0 <= i < |ids| ==> ids[i] == H(Preimage(b.transactions[i]));
    }
  }

  lemma SameIds(H: HashFn, txs: seq<Transaction>, ids: seq<Hash>)
    requires |ids| == |txs| && forall i :: 0 <= i < |ids| ==> ids[i] == H(Preimage(txs[i]))
    ensures ids == Txids(H, txs)
  {
    forall i | 0 <= i < |ids|
      ensures ids[i] == Txids(H, txs)[i]
    {
      assert Txids(H, txs)[i] == TxidOf(H, txs[i]);
    }
  }

  lemma StructureExactly(H: HashFn, b: Block, now: u64)
    ensures ValidStructure(H, b, now)
       <==> OpensWithReward(b) && RootsItself(H, b) && MeetsOwnTarget(H, b) && NotFromTheFuture(b, now)
  {
    if b.transactions != [] {
      OwnRootExactly(H, b);
    }
  }

  /** A block the chain does not know yet and accepts is sound; its inputs are coins of the chain. */
  lemma AcceptedIsSound(H: HashFn, s: State, x: Submission)
    requires Accepted(H, s, x.block, x.height, x.now)
    ensures Sound(H, x.block, x.now)
    ensures forall i, j :: 1 <= i < |x.block.transactions| && 0 <= j < |x.block.transactions[i].inputs| ==>
              x.block.transactions[i].inputs[j].Spends() in s.utxo
  {
    AcceptedExactly(H, s, x);
    StructureExactly(H, x.block, x.now);
    forall i, j | 1 <= i < |x.block.transactions| && 0 <= j < |x.block.transactions[i].inputs|
      ensures x.block.transactions[i].inputs[j].Spends() in s.utxo
    {
      assert Spends(x.block.transactions[i].inputs)[j] in AsSet(Spends(x.block.transactions[i].inputs));
    }
  }

  /** An unknown block that is not sound, such as one whose root is not its own, is refused without effect. */
  lemma UnsoundRefused(H: HashFn, s: State, x: Submission)
    requires BlockHash(H, x.block) !in s.cache && !Sound(H, x.block, x.now)
    ensures !AddBlock(H, s, x.block, x.height, x.now).0 && Step(H, s, x) == s
  {
    if Reaches(H, s, x) {
      StructureExactly(H, x.block, x.now);
      assert PaysWithinLimit(x.block);
    }
    AcceptedExactly(H, s, x);
    RefusalLeavesStateExactly(H, s, x);
  }

  /** The block came with one of the submissions and was sound at that time. */
  ghost predicate CameSound(H: HashFn, subs: seq<Submission>, b: Block) {
    exists k :: 0 <= k < |subs| && subs[k].block == b && Sound(H, b, subs[k].now)
  }

  lemma CameSoundStays(H: HashFn, subs: seq<Submission>, b: Block)
    requires subs != [] && CameSound(H, subs[..|subs| - 1], b)
    ensures CameSound(H, subs, b)
  {
    var k :| 0 <= k < |subs| - 1 && subs[..|subs| - 1][k].block == b && Sound(H, b, subs[..|subs| - 1][k].now);
    assert subs[k] == subs[..|subs| - 1][k];
  }

  lemma LastCameSound(H: HashFn, s: State, subs: seq<Submission>, x: Submission)
    requires subs != [] && x == subs[|subs| - 1] && Accepted(H, s, x.block, x.height, x.now)
    ensures CameSound(H, subs, x.block)
  {
    AcceptedIsSound(H, s, x);
    assert subs[|subs| - 1].block == x.block && Sound(H, x.block, subs[|subs| - 1].now);
  }

  /** What the last submission adds to the chain. */
  lemma ChainGrows(H: HashFn, s: State, bs: seq<Block>, subs: seq<Submission>)
    requires subs != []
    ensures var n := |subs| - 1;
            var cs, x := ChainAfter(H, s, bs, subs[..n]), subs[n];
            ChainAfter(H, s, bs, subs)
            == if Accepted(H, Run(H, s, subs[..n]), x.block, x.height, x.now) then cs + [x.block] else cs
  {
  }

  /** In every run each block above those it started from came with a submission and was sound then. */
  lemma {:induction false} RunSound(H: HashFn, s: State, bs: seq<Block>, subs: seq<Submission>, h: nat)
    requires |bs| <= h < |ChainAfter(H, s, bs, subs)|
    ensures CameSound(H, subs, ChainAfter(H, s, bs, subs)[h])
    decreases |subs|
  {
    if subs != [] {
      var n := |subs| - 1;
      ChainGrows(H, s, bs, subs);
      if h < |ChainAfter(H, s, bs, subs[..n])| {
        RunSound(H, s, bs, subs[..n], h);
        CameSoundStays(H, subs, ChainAfter(H, s, bs, subs[..n])[h]);
      } else {
        LastCameSound(H, Run(H, s, subs[..n]), subs, subs[n]);
      }
    }
  }

  /** Cache and height index name each block by the hash of its 80 header bytes. */
  lemma NamedByHeaderHash(H: HashFn, stored: bool, subs: seq<Submission>, h: nat)
    requires h < |ChainOf(H, stored, subs)|
    ensures var s, b := Run(H, Genesis(H, stored), subs), ChainOf(H, stored, subs)[h];
            var key := H(HashedHeader(b.header));
            && h in s.index && s.index[h] == key && key in s.cache && s.cache[key] == b
            && (h == s.height ==> s.best == key)
            && (h > 0 ==> b.header.previousHash == H(HashedHeader(ChainOf(H, stored, subs)[h - 1].header)))
  {
    GenesisRunHolds(H, stored, subs);
    KeyOfHeader(H, ChainOf(H, stored, subs)[h]);
    if h > 0 {
      KeyOfHeader(H, ChainOf(H, stored, subs)[h - 1]);
    }
  }

  lemma KeyOfHeader(H: HashFn, b: Block)
    ensures HashOf(H)(b) == H(HashedHeader(b.header))
  {
  }

  lemma GenesisRootsItself(H: HashFn)
    ensures RootsItself(H, GenesisBlock(H)) && OpensWithReward(GenesisBlock(H))
  {
    OwnRootExactly(H, GenesisBlock(H));
  }

  /** Every block of every chain, genesis included, carries the tree root of its own transactions' ids. */
  lemma EveryBlockRootsItself(H: HashFn, stored: bool, subs: seq<Submission>, h: nat)
    requires h < |ChainOf(H, stored, subs)|
    ensures RootsItself(H, ChainOf(H, stored, subs)[h]) && OpensWithReward(ChainOf(H, stored, subs)[h])
  {
    GenesisRunHolds(H, stored, subs);
    if h == 0 {
      GenesisRootsItself(H);
    } else {
      RunSound(H, Genesis(H, stored), [GenesisBlock(H)], subs, h);
    }
  }
}
