/** Checks a block or transaction must pass whatever the chain holds. */
module Consensus {
  import opened Bytes
  import opened Types
  import opened Merkle
  import opened ProofOfWork

  const FUTURE_LIMIT: nat := 2 * 60 * 60

  /** The checks that need no chain; `now` is the wall clock, added to in 64 bits. */
  ghost predicate ValidStructure(H: HashFn, b: Block, now: u64) {
    && b.transactions != []
    && b.transactions[0].IsCoinbase()
    && b.header.merkleRoot == MerkleRoot(H, b.transactions)
    && b.header.timestamp <= (now + FUTURE_LIMIT) % 0x1_0000_0000_0000_0000
    && Mantissa(b.header.difficultyTarget) != 0
    && HasWork(H, b.header)
  }

  method ValidateBlockStructure(H: HashFn, b: Block, now: u64) returns (ok: bool)
    ensures ok == ValidStructure(H, b, now)
  {
    if |b.transactions| == 0 { return false; }
    if !b.transactions[0].IsCoinbase() { return false; }
    var merkle := ComputeMerkleRoot(H, b.transactions);
    if merkle != b.header.merkleRoot { return false; }
    if b.header.timestamp > (now + FUTURE_LIMIT) % 0x1_0000_0000_0000_0000 { return false; }
    if Mantissa(b.header.difficultyTarget) == 0 { return false; }
    ok := CheckProofOfWork(H, b.header);
  }

  function SumOutputs(outs: seq<TxOutput>): (sum: nat) {
    if outs == [] then 0 else SumOutputs(outs[..|outs| - 1]) + outs[|outs| - 1].amount
  }

  /** The amounts of a transaction are in range one by one and together, and it has something to spend. */
  ghost predicate ValidTransaction(tx: Transaction) {
    && tx.outputs != []
    && SumOutputs(tx.outputs) <= MAX_MONEY
    && tx.inputs != []
  }

  lemma {:induction false} PrefixSumGrows(outs: seq<TxOutput>, k: nat)
    requires k <= |outs|
    ensures SumOutputs(outs[..k]) <= SumOutputs(outs)
    ensures k < |outs| ==> SumOutputs(outs[..k + 1]) == SumOutputs(outs[..k]) + outs[k].amount
    decreases |outs| - k
  {
    if k < |outs| {
      PrefixSumGrows(outs, k + 1);
      assert outs[..k + 1][..k] == outs[..k];
    } else {
      assert outs[..k] == outs;
    }
  }

  /** The 64-bit sum with its per-output caps and overflow test decides the unbounded sum. */
  method ValidateTransactionStructure(tx: Transaction) returns (ok: bool)
    ensures ok == ValidTransaction(tx)
  {
    if |tx.outputs| == 0 { return false; }
    var outSum: u64 := 0;
    for i := 0 to |tx.outputs|
      invariant outSum == SumOutputs(tx.outputs[..i])
      invariant i > 0 ==> outSum < 0x1_0000_0000_0000_0000
    {
      var amount := tx.outputs[i].amount;
      PrefixSumGrows(tx.outputs, i);
      PrefixSumGrows(tx.outputs, i + 1);
      if amount > MAX_MONEY { return false; }
      var wrapped := (outSum + amount) % 0x1_0000_0000_0000_0000;
      if wrapped < outSum {
        return false;
      }
      outSum := wrapped;
    }
    assert tx.outputs[..|tx.outputs|] == tx.outputs;
    if outSum > MAX_MONEY { return false; }
    if !tx.IsCoinbase() && |tx.inputs| == 0 { return false; }
    return true;
  }
}
