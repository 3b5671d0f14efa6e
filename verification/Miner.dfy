/** The miner's nonce search against the validator's check. */
module Miner {
  import opened Bytes
  import opened Types
  import opened Merkle
  import opened ProofOfWork
  import opened Consensus

  const NONCES: nat := 0x1_0000_0000

  /** The header the miner tries with one nonce. */
  function Candidate(H: HashFn, b: Block, target: u32, nonce: u32): BlockHeader {
    b.header.(difficultyTarget := target, merkleRoot := MerkleRoot(H, b.transactions), nonce := nonce)
  }

  /** The search sets root, target and nonce and nothing else, and different nonces give different hashed bytes. */
  lemma CandidateExact(H: HashFn, b: Block, target: u32, nonce: u32, nonce': u32)
    ensures Candidate(H, b, target, nonce)
         == BlockHeader(b.header.version, b.header.previousHash, MerkleRoot(H, b.transactions), b.header.timestamp,
                        target, nonce)
    ensures HashedHeader(Candidate(H, b, target, nonce)) == HashedHeader(Candidate(H, b, target, nonce'))
       <==> nonce == nonce'
  {
    HeaderBytesExact(Candidate(H, b, target, nonce), Candidate(H, b, target, nonce'));
  }

  /** The header bytes pushed one field after another. */
  method GetHeaderHash(H: HashFn, h: BlockHeader) returns (hash: Hash)
    ensures hash == HeaderHash(H, h)
  {
    var ts := h.timestamp % 0x1_0000_0000;
    var head := LE(h.version, 4) + (h.previousHash + h.merkleRoot);
    var tail := LE(ts, 4) + (LE(h.difficultyTarget, 4) + LE(h.nonce, 4));
    assert head + tail == HashedHeader(h);
    hash := H(head + tail);
  }

  /** The miner's scan: stops at the first difference, remembering only a larger byte. */
  method MinerAccepts(h: Hash, target: array<byte>) returns (ok: bool)
    requires target.Length == 32
    ensures ok == (FromLE(h) <= FromLE(target[..]))
  {
    ghost var t := target[..];
    ok := true;
    var i := 31;
    while i >= 0 && ok
      invariant -1 <= i <= 31
      invariant ok ==> forall j :: i < j < 32 ==> h[j] == t[j]
      invariant !ok ==> FromLE(h) > FromLE(t)
      decreases i
    {
      if h[i] > target[i] {
        FirstDifference(t, h, i);
        ok := false;
      }
      if h[i] < target[i] {
        FirstDifference(h, t, i);
        return true;
      }
      i := i - 1;
    }
    assert ok ==> h == t;
  }

  /** One round of the search: the header with the next nonce, hashed and compared. */
  method TryNonce(H: HashFn, b: Block, target: u32, root: Hash, expanded: array<byte>, nonce: u32)
      returns (ok: bool, mined: Block)
    requires root == MerkleRoot(H, b.transactions)
    requires expanded.Length == 32 && expanded[..] == Target(target)
    ensures mined == Block(Candidate(H, b, target, nonce), b.transactions)
    ensures ok == HasWork(H, Candidate(H, b, target, nonce))
  {
    mined := Block(b.header.(difficultyTarget := target, merkleRoot := root, nonce := nonce), b.transactions);
    var hash := GetHeaderHash(H, mined.header);
    ok := MinerAccepts(hash, expanded);
  }

  /** The nonces below `bound` all fail. */
  ghost predicate AllFail(H: HashFn, b: Block, target: u32, bound: nat) {
    forall n: u32 :: n < bound ==> !HasWork(H, Candidate(H, b, target, n))
  }

  /** When a block with the miner's header passes every structural check. */
  ghost predicate ValidWhen(H: HashFn, b: Block, target: u32, mined: Block, now: u64) {
    ValidStructure(H, mined, now) <==>
      && b.transactions != [] && b.transactions[0].IsCoinbase()
      && b.header.timestamp <= (now + FUTURE_LIMIT) % 0x1_0000_0000_0000_0000
      && Mantissa(target) != 0
  }

  ghost predicate ValidAtAllTimes(H: HashFn, b: Block, target: u32, mined: Block) {
    forall now: u64 :: ValidWhen(H, b, target, mined, now)
  }

  lemma MinedIsValid(H: HashFn, b: Block, target: u32, mined: Block)
    requires mined.transactions == b.transactions
    requires mined.header == Candidate(H, b, target, mined.header.nonce) && HasWork(H, mined.header)
    ensures ValidAtAllTimes(H, b, target, mined)
  {
  }

  lemma OneMoreFails(H: HashFn, b: Block, target: u32, nonce: u32)
    requires AllFail(H, b, target, nonce) && !HasWork(H, Candidate(H, b, target, nonce))
    ensures AllFail(H, b, target, nonce + 1)
  {
  }

  /** The search over all nonces, once around the 32 bits. */
  method Search(H: HashFn, b: Block, target: u32, root: Hash, expanded: array<byte>)
      returns (ok: bool, mined: Block)
    requires root == MerkleRoot(H, b.transactions)
    requires expanded.Length == 32 && expanded[..] == Target(target)
    ensures mined == Block(Candidate(H, b, target, mined.header.nonce), b.transactions)
    ensures ok ==> HasWork(H, mined.header) && AllFail(H, b, target, mined.header.nonce)
    ensures !ok ==> AllFail(H, b, target, NONCES)
  {
    var nonce: u32 := 0;
    while true
      invariant AllFail(H, b, target, nonce)
      decreases NONCES - nonce
    {
      ok, mined := TryNonce(H, b, target, root, expanded, nonce);
      if ok {
        return;
      }
      OneMoreFails(H, b, target, nonce);
      var next := (nonce + 1) % NONCES;
      if next == 0 {
        return;
      }
      nonce := next;
    }
  }

  /**
   The search finds the least nonce that passes the validator's check, and fails only when none of the
   2^32 does, having wrapped around once. What it returns passes every structural check of the
   validator, given a leading coinbase, a nonzero mantissa and a timestamp that is not too far ahead.
   */
  method MineBlock(H: HashFn, b: Block, target: u32) returns (ok: bool, mined: Block)
    ensures mined.transactions == b.transactions
    ensures mined.header == Candidate(H, b, target, mined.header.nonce)
    ensures ok ==> HasWork(H, mined.header)
    ensures ok ==> AllFail(H, b, target, mined.header.nonce)
    ensures ok ==> ValidAtAllTimes(H, b, target, mined)
    ensures !ok ==> AllFail(H, b, target, NONCES)
  {
    var root := ComputeMerkleRoot(H, b.transactions);
    var expanded := ExpandTarget(target);
    ok, mined := Search(H, b, target, root, expanded);
    if ok {
      MinedIsValid(H, b, target, mined);
    }
  }
}
