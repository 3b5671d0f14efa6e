/** What the repeated leaves of an odd Merkle row mean for a chain: one header hash, two blocks. */
module RepeatedTail {
  import opened Bytes
  import opened Types
  import opened Txid
  import opened Merkle
  import opened Consensus
  import opened Utxo
  import opened Chain
  import opened ChainRuns
  import opened SupplyLedger

  /** The block with a copy of its last k transactions appended. */
  function Lengthened(b: Block, k: nat): Block
    requires k <= |b.transactions|
  {
    b.(transactions := WithTail(b.transactions, k))
  }

  lemma {:induction false} TxidsAppend(H: HashFn, a: seq<Transaction>, b: seq<Transaction>)
    ensures Txids(H, a + b) == Txids(H, a) + Txids(H, b)
  {
    if a == [] {
      assert a + b == b;
    } else {
      assert (a + b)[1..] == a[1..] + b;
      TxidsAppend(H, a[1..], b);
    }
  }

  lemma TxidsWithTail(H: HashFn, txs: seq<Transaction>, k: nat)
    requires k <= |txs|
    ensures Txids(H, WithTail(txs, k)) == WithTail(Txids(H, txs), k)
  {
    var front, tail := txs[..|txs| - k], txs[|txs| - k..];
    assert front + tail == txs;
    TxidsParts(H, front, tail);
  }

  lemma TxidsParts(H: HashFn, front: seq<Transaction>, tail: seq<Transaction>)
    ensures Txids(H, (front + tail) + tail) == WithTail(Txids(H, front + tail), |tail|)
  {
    var x, y, z := Txids(H, front + tail), Txids(H, front), Txids(H, tail);
    TxidsAppend(H, front + tail, tail);
    TxidsAppend(H, front, tail);
    LastPart(y, z);
    assert x[|x| - |tail|..] == z;
  }

  lemma LastPart<T>(a: seq<T>, b: seq<T>)
    ensures (a + b)[|a + b| - |b|..] == b
  {
  }

  /** Over m * 2^j transactions, m odd and above one, the last 2^j can be repeated under the same header. */
  predicate Repeatable(b: Block, m: nat, j: nat) {
    m % 2 == 1 && m > 1 && |b.transactions| == m * Pow2(j)
  }

  lemma TailFits(b: Block, m: nat, j: nat)
    requires Repeatable(b, m, j)
    ensures 0 < Pow2(j) < |b.transactions|
  {
    ProductGrows(2, m, Pow2(j));
  }

  lemma LengthenedRoot(H: HashFn, b: Block, m: nat, j: nat)
    requires Repeatable(b, m, j) && Pow2(j) <= |b.transactions|
    ensures MerkleRoot(H, Lengthened(b, Pow2(j)).transactions) == MerkleRoot(H, b.transactions)
  {
    RepeatedTailKeepsRoot(H, Txids(H, b.transactions), m, j);
    TxidsWithTail(H, b.transactions, Pow2(j));
  }

  lemma LengthenedTxsOk(coins: UtxoMap, txs: seq<Transaction>, k: nat)
    requires k < |txs| && TransactionsOk(coins, txs)
    ensures TransactionsOk(coins, WithTail(txs, k))
  {
    forall i | 1 <= i < |txs| + k
      ensures ValidTransaction(WithTail(txs, k)[i]) && AsSet(Spends(WithTail(txs, k)[i].inputs)) <= coins.Keys
    {
      TailAt(txs, k, i);
    }
  }

  lemma LengthenedValid(H: HashFn, b: Block, k: nat, now: u64)
    requires k < |b.transactions| && ValidStructure(H, b, now)
    requires MerkleRoot(H, Lengthened(b, k).transactions) == MerkleRoot(H, b.transactions)
    ensures ValidStructure(H, Lengthened(b, k), now)
  {
  }

  lemma LengthenedReaches(H: HashFn, s: State, x: Submission, m: nat, j: nat)
    requires Reaches(H, s, x) && Repeatable(x.block, m, j) && Pow2(j) < |x.block.transactions|
    ensures Reaches(H, s, x.(block := Lengthened(x.block, Pow2(j))))
  {
    LengthenedRoot(H, x.block, m, j);
    LengthenedValid(H, x.block, Pow2(j), x.now);
    LengthenedTxsOk(s.utxo, x.block.transactions, Pow2(j));
  }

  lemma {:induction false} InputsAppend(a: seq<Transaction>, b: seq<Transaction>)
    ensures InputsOf(a + b) == InputsOf(a) + InputsOf(b)
  {
    if a == [] {
      assert a + b == b;
    } else {
      assert (a + b)[1..] == a[1..] + b;
      InputsAppend(a[1..], b);
    }
  }

  /** What the last k transactions of a block spend. */
  function TailInputs(b: Block, k: nat): seq<OutPoint>
    requires k <= |b.transactions|
  {
    InputsOf(b.transactions[|b.transactions| - k..])
  }

  lemma LengthenedInputs(b: Block, k: nat)
    requires k < |b.transactions|
    ensures BlockInputs(Lengthened(b, k)) == BlockInputs(b) + TailInputs(b, k)
    ensures AsSet(TailInputs(b, k)) <= AsSet(BlockInputs(b))
  {
    var txs, n := b.transactions, |b.transactions|;
    var middle, tail := txs[1..n - k], txs[n - k..];
    assert txs[1..] == middle + tail;
    AfterFirst(txs, tail);
    InputsAppend(txs[1..], tail);
    InputsAppend(middle, tail);
    SecondPart(InputsOf(middle), InputsOf(tail));
  }

  lemma AfterFirst<T>(s: seq<T>, t: seq<T>)
    requires s != []
    ensures (s + t)[1..] == s[1..] + t
  {
  }

  lemma SecondPart(a: seq<OutPoint>, b: seq<OutPoint>)
    ensures AsSet(b) <= AsSet(a + b)
  {
  }

  lemma {:induction false} SpendAllAppend(m: UtxoMap, a: seq<OutPoint>, b: seq<OutPoint>)
    requires SpendAll(m, a).0
    ensures SpendAll(m, a + b) == SpendAll(SpendAll(m, a).1, b)
  {
    if a == [] {
      assert a + b == b;
    } else {
      assert (a + b)[1..] == a[1..] + b;
      SpendAllAppend(m - {a[0]}, a[1..], b);
    }
  }

  /** Spending a list and then one of its own outpoints again fails, and keeps the list spent. */
  lemma SpendAgain(m: UtxoMap, a: seq<OutPoint>, b: seq<OutPoint>)
    requires SpendAll(m, a).0 && b != [] && AsSet(b) <= AsSet(a)
    ensures SpendAll(m, a + b) == (false, m - AsSet(a))
  {
    SpendAllAppend(m, a, b);
    SpendAllExact(m, a);
    assert b[0] in AsSet(b);
  }

  lemma LengthenedConnects(H: HashFn, coins: UtxoMap, b: Block, k: nat)
    requires k < |b.transactions| && TailInputs(b, k) != [] && ConnectUtxo(H, coins, b).0
    ensures ConnectUtxo(H, coins, Lengthened(b, k)) == (false, coins - AsSet(BlockInputs(b)))
  {
    LengthenedInputs(b, k);
    SpendAgain(coins, BlockInputs(b), TailInputs(b, k));
  }

  lemma SpentBlockRefused(H: HashFn, t: State, x: Submission)
    requires BlockHash(H, x.block) !in t.cache && BlockInputs(x.block) != []
    requires AsSet(BlockInputs(x.block)) !! t.utxo.Keys
    ensures !AddBlock(H, t, x.block, x.height, x.now).0
  {
    AcceptedExactly(H, t, x);
    assert BlockInputs(x.block)[0] in AsSet(BlockInputs(x.block));
    if Reaches(H, t, x) {
      AdmissibleInputsPresent(H, t, x.block, x.now);
    }
  }

  /**
   The header hash does not say which list of transactions was submitted. If a block would be accepted,
   has m * 2^j transactions, m odd and above one, and the last 2^j spend something, then the same block
   with those repeated has its hash, passes every guard and is refused, but leaves everything the block
   spends removed; the block itself is refused after that.
   */
  lemma RepeatedTailConsumes(H: HashFn, s: State, x: Submission, m: nat, j: nat)
    requires Accepted(H, s, x.block, x.height, x.now) && Repeatable(x.block, m, j)
    requires Pow2(j) <= |x.block.transactions| && TailInputs(x.block, Pow2(j)) != []
    ensures var y := x.(block := Lengthened(x.block, Pow2(j)));
            var t := Step(H, s, y);
            && BlockHash(H, y.block) == BlockHash(H, x.block) && Reaches(H, s, y)
            && !AddBlock(H, s, y.block, y.height, y.now).0
            && t == s.(utxo := s.utxo - AsSet(BlockInputs(x.block)))
            && !AddBlock(H, t, x.block, x.height, x.now).0
  {
    var y := x.(block := Lengthened(x.block, Pow2(j)));
    TailFits(x.block, m, j);
    AcceptedExactly(H, s, x);
    ReachedStep(H, s, x);
    LengthenedReaches(H, s, x, m, j);
    ReachedStep(H, s, y);
    LengthenedConnects(H, s.utxo, x.block, Pow2(j));
    LengthenedInputs(x.block, Pow2(j));
    OtherStep(H, s, y);
    SpentBlockRefused(H, Step(H, s, y), x);
  }
}
