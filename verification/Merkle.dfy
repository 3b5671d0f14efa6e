/** The Merkle root: the row-by-row loop, the tree it computes, what the root commits to. */
module Merkle {
  import opened Bytes
  import opened Types
  import opened Txid

  function Concat(left: seq<byte>, right: seq<byte>): seq<byte> { left + right }

  /** The 64 bytes hashed for node i of the row above `row`: the last hash of an odd row goes in twice. */
  function Pair(row: seq<Hash>, i: nat): (bs: seq<byte>)
    requires 2 * i < |row|
    ensures |bs| == 64
  {
    Concat(row[2 * i], if 2 * i + 1 < |row| then row[2 * i + 1] else row[2 * i])
  }

  /** The row above `row`. */
  function Level(H: HashFn, row: seq<Hash>): (next: seq<Hash>)
    ensures |next| == (|row| + 1) / 2
    ensures forall i :: 0 <= i < |next| ==> next[i] == H(Pair(row, i))
  {
    seq<Hash>((|row| + 1) / 2, i requires 0 <= i < (|row| + 1) / 2 => H(Pair(row, i)))
  }

  function Root(H: HashFn, row: seq<Hash>): Hash
    decreases |row|
  {
    if |row| == 0 then ZERO_HASH else if |row| == 1 then row[0] else Root(H, Level(H, row))
  }

  // ---------- the tree, from the top ----------

  /** Number of nodes at a height above n leaves. */
  function Width(n: nat, height: nat): nat {
    if height == 0 then n else (Width(n, height - 1) + 1) / 2
  }

  /** Node `pos` at `height`: its two children hashed, the left one twice when there is no right one. */
  function TreeHash(H: HashFn, leaves: seq<Hash>, height: nat, pos: nat): Hash
    requires pos < Width(|leaves|, height)
  {
    if height == 0 then leaves[pos] else
    var left := TreeHash(H, leaves, height - 1, 2 * pos);
    var right := if 2 * pos + 1 < Width(|leaves|, height - 1)
                 then TreeHash(H, leaves, height - 1, 2 * pos + 1) else left;
    H(Concat(left, right))
  }

  /** Height of the tree over n leaves. */
  function Depth(n: nat): nat { if n <= 1 then 0 else 1 + Depth((n + 1) / 2) }

  lemma {:induction false} WidthShift(n: nat, height: nat)
    ensures Width((n + 1) / 2, height) == Width(n, height + 1)
  {
    if height > 0 {
      WidthShift(n, height - 1);
    }
  }

  lemma {:induction false} TreeShift(H: HashFn, leaves: seq<Hash>, height: nat, pos: nat)
    requires pos < Width(|leaves|, height + 1)
    ensures pos < Width(|Level(H, leaves)|, height)
    ensures TreeHash(H, Level(H, leaves), height, pos) == TreeHash(H, leaves, height + 1, pos)
  {
    WidthShift(|leaves|, height);
    if height > 0 {
      WidthShift(|leaves|, height - 1);
      TreeShift(H, leaves, height - 1, 2 * pos);
      if 2 * pos + 1 < Width(|leaves|, height) {
        TreeShift(H, leaves, height - 1, 2 * pos + 1);
      }
    }
  }

  lemma {:induction false} DepthReachesRoot(n: nat)
    requires n > 0
    ensures Width(n, Depth(n)) == 1
  {
    if n > 1 {
      DepthReachesRoot((n + 1) / 2);
      WidthShift(n, Depth((n + 1) / 2));
    }
  }

  /** Replacing a row by the row above it until one hash is left computes the root of the tree. */
  lemma {:induction false} RootIsTree(H: HashFn, leaves: seq<Hash>)
    requires leaves != []
    ensures Width(|leaves|, Depth(|leaves|)) == 1
    ensures Root(H, leaves) == TreeHash(H, leaves, Depth(|leaves|), 0)
    decreases |leaves|
  {
    DepthReachesRoot(|leaves|);
    if |leaves| > 1 {
      RootIsTree(H, Level(H, leaves));
      TreeShift(H, leaves, Depth(|leaves|) - 1, 0);
    }
  }

  /** The left hash fills the first 32 bytes, its right neighbour, or itself again, the other 32. */
  lemma PairBytes(row: seq<Hash>, i: nat)
    requires 2 * i < |row|
    ensures Pair(row, i)[..32] == row[2 * i]
    ensures Pair(row, i)[32..] == if 2 * i + 1 < |row| then row[2 * i + 1] else row[2 * i]
  {
  }

  /** The hash of an inner node: of its left child's hash followed by its right child's, or the left one's again. */
  lemma NodeHashed(H: HashFn, leaves: seq<Hash>, height: nat, pos: nat)
    requires pos < Width(|leaves|, height + 1)
    ensures 2 * pos < Width(|leaves|, height)
    ensures TreeHash(H, leaves, height + 1, pos)
         == H(TreeHash(H, leaves, height, 2 * pos)
              + if 2 * pos + 1 < Width(|leaves|, height) then TreeHash(H, leaves, height, 2 * pos + 1)
                else TreeHash(H, leaves, height, 2 * pos))
  {
  }

  /** Each hash of the row above, and how many there are. */
  lemma RowAbove(H: HashFn, row: seq<Hash>, i: nat)
    requires 2 * i < |row|
    ensures |Level(H, row)| == (|row| + 1) / 2
    ensures var left: seq<byte> := row[2 * i];
            var right: seq<byte> := if 2 * i + 1 < |row| then row[2 * i + 1] else row[2 * i];
            Level(H, row)[i] == H(left + right)
  {
    PairBytes(row, i);
    assert Pair(row, i) == Pair(row, i)[..32] + Pair(row, i)[32..];
  }

  lemma OneLeaf(H: HashFn, a: Hash)
    ensures Root(H, [a]) == a
  {
  }

  lemma TwoLeaves(H: HashFn, a: Hash, b: Hash)
    ensures Root(H, [a, b]) == H(a + b)
  {
    RowAbove(H, [a, b], 0);
    assert Level(H, [a, b]) == [H(a + b)];
    OneLeaf(H, H(a + b));
  }

  /** The roots of one, two and three leaves. */
  lemma FewLeaves(H: HashFn, a: Hash, b: Hash, c: Hash)
    ensures Root(H, [a]) == a && Root(H, [a, b]) == H(a + b)
    ensures Root(H, [a, b, c]) == H(H(a + b) + H(c + c))
  {
    OneLeaf(H, a);
    TwoLeaves(H, a, b);
    RowAbove(H, [a, b, c], 0);
    RowAbove(H, [a, b, c], 1);
    assert Level(H, [a, b, c]) == [H(a + b), H(c + c)];
    TwoLeaves(H, H(a + b), H(c + c));
  }

  method ComputeMerkleRootFromHashes(H: HashFn, hashes: seq<Hash>) returns (root: Hash)
    ensures hashes == [] ==> root == ZERO_HASH
    ensures hashes != [] ==>
              Width(|hashes|, Depth(|hashes|)) == 1 && root == TreeHash(H, hashes, Depth(|hashes|), 0)
    ensures root == Root(H, hashes)
  {
    if |hashes| == 0 {
      return ZERO_HASH;
    }
    var row := hashes;
    while |row| > 1
      invariant |row| > 0
      invariant Root(H, row) == Root(H, hashes)
      decreases |row|
    {
      var next: seq<Hash> := [];
      var i := 0;
      while i < |row|
        invariant i == 2 * |next|
        invariant |next| <= (|row| + 1) / 2
        invariant forall k :: 0 <= k < |next| ==> next[k] == H(Pair(row, k))
      {
        var concat := Concat(row[i], if i + 1 < |row| then row[i + 1] else row[i]);
        assert concat == Pair(row, |next|);
        next := next + [H(concat)];
        i := i + 2;
      }
      assert next == Level(H, row);
      row := next;
    }
    RootIsTree(H, hashes);
    return row[0];
  }

  // ---------- commitment ----------

  /** Every byte string hashed on the way from a row to its root. */
  ghost function Hashed(H: HashFn, row: seq<Hash>): set<seq<byte>>
    decreases |row|
  {
    if |row| <= 1 then {} else
    (set i | 0 <= i < (|row| + 1) / 2 :: Pair(row, i)) + Hashed(H, Level(H, row))
  }

  /** Two different byte strings with one hash. */
  predicate Collide(H: HashFn, x: seq<byte>, y: seq<byte>) { x != y && H(x) == H(y) }

  /**
   Two lists of one length with one root are equal, or two of the byte strings hashed for their roots
   collide; the lemma names the two strings.
   */
  lemma {:induction false} RootCommits(H: HashFn, a: seq<Hash>, b: seq<Hash>) returns (x: seq<byte>, y: seq<byte>)
    requires |a| == |b| && a != b
    requires Root(H, a) == Root(H, b)
    ensures x in Hashed(H, a) && y in Hashed(H, b) && Collide(H, x, y)
    decreases |a|
  {
    x, y := [], [];
    if |a| <= 1 {
      assert false;
    } else if Level(H, a) == Level(H, b) {
      var k :| 0 <= k < |a| && a[k] != b[k];
      var i := k / 2;
      x, y := Pair(a, i), Pair(b, i);
      PairsDiffer(a, b, k);
      assert Level(H, a)[i] == H(x) && Level(H, b)[i] == H(y);
    } else {
      x, y := RootCommits(H, Level(H, a), Level(H, b));
    }
  }

  lemma PairsDiffer(a: seq<Hash>, b: seq<Hash>, k: nat)
    requires |a| == |b| && k < |a| && a[k] != b[k]
    ensures Pair(a, k / 2) != Pair(b, k / 2)
  {
    var i := k / 2;
    if k % 2 == 0 {
      assert Pair(a, i)[..32] == a[k] && Pair(b, i)[..32] == b[k];
    } else {
      assert Pair(a, i)[32..] == a[k] && Pair(b, i)[32..] == b[k];
    }
  }

  // ---------- which rows share a root ----------

  /** Which item of a row of n stands at place k once the copies the loop makes are written out. */
  function Source(n: nat, k: nat): (i: nat)
    requires n > 0
    ensures i < n
  {
    if n == 1 then 0 else
    var up := Source((n + 1) / 2, k / 2);
    if k % 2 == 0 || 2 * up + 1 >= n then 2 * up else 2 * up + 1
  }

  /** The row with those copies: as many items as a full tree of its depth has leaves. */
  function Completed<T>(row: seq<T>): (full: seq<T>)
    requires row != []
    ensures |full| == Pow2(Depth(|row|))
    ensures forall k :: 0 <= k < |full| ==> full[k] == row[Source(|row|, k)]
  {
    seq(Pow2(Depth(|row|)), k requires 0 <= k => row[Source(|row|, k)])
  }

  /** Every item stands at its own place, so the completion begins with the row. */
  lemma {:induction false} OwnPlace(n: nat, i: nat)
    requires i < n
    ensures Source(n, i) == i && i < Pow2(Depth(n))
    decreases n
  {
    if n > 1 {
      OwnPlace((n + 1) / 2, i / 2);
    }
  }

  lemma CompletedPair(row: seq<Hash>, k: nat)
    requires |row| > 1 && k < Pow2(Depth(|row|) - 1)
    ensures Pair(Completed(row), k) == Pair(row, Source((|row| + 1) / 2, k))
  {
    var n, up := |row|, Source((|row| + 1) / 2, k);
    assert Source(n, 2 * k) == 2 * up;
    assert Source(n, 2 * k + 1) == if 2 * up + 1 >= n then 2 * up else 2 * up + 1;
  }

  /** Hashing a completed row completes the row above. */
  lemma LevelOfCompleted(H: HashFn, row: seq<Hash>)
    requires |row| > 1
    ensures Level(H, Completed(row)) == Completed(Level(H, row))
  {
    forall k | 0 <= k < Pow2(Depth(|row|) - 1)
      ensures Level(H, Completed(row))[k] == Completed(Level(H, row))[k]
    {
      CompletedPair(row, k);
    }
  }

  lemma CompletedPairsHashed(H: HashFn, row: seq<Hash>)
    requires |row| > 1
    ensures forall k :: 0 <= k < Pow2(Depth(|row|) - 1) ==> Pair(Completed(row), k) in Hashed(H, row)
  {
    forall k | 0 <= k < Pow2(Depth(|row|) - 1)
      ensures Pair(Completed(row), k) in Hashed(H, row)
    {
      CompletedPair(row, k);
    }
  }

  /** A row and its completion have one root, and hashing the completion hashes nothing new. */
  lemma {:induction false} RootOfCompleted(H: HashFn, row: seq<Hash>)
    requires row != []
    ensures Root(H, Completed(row)) == Root(H, row)
    ensures Hashed(H, Completed(row)) <= Hashed(H, row)
    decreases |row|
  {
    if |row| == 1 {
      assert Completed(row) == row;
    } else {
      LevelOfCompleted(H, row);
      CompletedPairsHashed(H, row);
      RootOfCompleted(H, Level(H, row));
    }
  }

  /**
   Over trees of one depth, two rows have one root exactly when their completions are the same, or two of
   the byte strings hashed for them collide.
   */
  lemma RootsEqualExactly(H: HashFn, a: seq<Hash>, b: seq<Hash>) returns (x: seq<byte>, y: seq<byte>)
    requires a != [] && b != [] && Depth(|a|) == Depth(|b|)
    ensures (Root(H, a) == Root(H, b) <==> Completed(a) == Completed(b))
         || (x in Hashed(H, a) && y in Hashed(H, b) && Collide(H, x, y))
  {
    x, y := [], [];
    RootOfCompleted(H, a);
    RootOfCompleted(H, b);
    if Root(H, a) == Root(H, b) && Completed(a) != Completed(b) {
      x, y := RootCommits(H, Completed(a), Completed(b));
    }
  }

  /** The row k levels above. */
  function Raised(H: HashFn, row: seq<Hash>, k: nat): seq<Hash>
    decreases k
  {
    if k == 0 then row else Raised(H, Level(H, row), k - 1)
  }

  /** A row k levels above another, with its root and hashing only what is hashed above that. */
  ghost predicate Above(H: HashFn, up: seq<Hash>, row: seq<Hash>, k: nat) {
    && up != [] && row != [] && Depth(|up|) + k == Depth(|row|)
    && Root(H, up) == Root(H, row) && Hashed(H, up) <= Hashed(H, row)
  }

  lemma LevelAbove(H: HashFn, row: seq<Hash>)
    requires |row| > 1
    ensures Above(H, Level(H, row), row, 1)
  {
  }

  lemma AboveAbove(H: HashFn, a: seq<Hash>, b: seq<Hash>, c: seq<Hash>, j: nat, k: nat)
    requires Above(H, a, b, j) && Above(H, b, c, k)
    ensures Above(H, a, c, j + k)
  {
  }

  lemma {:induction false} RaisedAbove(H: HashFn, row: seq<Hash>, k: nat)
    requires row != [] && k <= Depth(|row|)
    ensures Above(H, Raised(H, row, k), row, k)
    decreases k
  {
    if k > 0 {
      LevelAbove(H, row);
      RaisedAbove(H, Level(H, row), k - 1);
      AboveAbove(H, Raised(H, row, k), Level(H, row), row, k - 1, 1);
    }
  }

  /**
   Over trees of different depth the same holds of the smaller row and that row of the larger tree which
   has its depth.
   */
  lemma RootsOfUnequalDepth(H: HashFn, a: seq<Hash>, b: seq<Hash>) returns (x: seq<byte>, y: seq<byte>)
    requires a != [] && b != [] && Depth(|a|) <= Depth(|b|)
    ensures Raised(H, b, Depth(|b|) - Depth(|a|)) != []
    ensures (Root(H, a) == Root(H, b) <==> Completed(a) == Completed(Raised(H, b, Depth(|b|) - Depth(|a|))))
         || (x in Hashed(H, a) && y in Hashed(H, b) && Collide(H, x, y))
  {
    var k := Depth(|b|) - Depth(|a|);
    RaisedAbove(H, b, k);
    x, y := RootsEqualExactly(H, a, Raised(H, b, k));
  }

  /** Rows of one length have one completion only if they are the same. */
  lemma CompletedInjective<T>(a: seq<T>, b: seq<T>)
    requires a != [] && |a| == |b| && Completed(a) == Completed(b)
    ensures a == b
  {
    forall i | 0 <= i < |a|
      ensures a[i] == b[i]
    {
      OwnPlace(|a|, i);
      assert Completed(a)[i] == a[i] && Completed(b)[i] == b[i];
    }
  }

  // ---------- repeated tails ----------

  /** A row with a copy of its last k items appended. */
  function WithTail<T>(a: seq<T>, k: nat): (r: seq<T>)
    requires k <= |a|
  {
    a + a[|a| - k..]
  }

  /** Where the items of the longer row come from. */
  lemma TailAt<T>(a: seq<T>, k: nat, i: nat)
    requires k <= |a| && i < |a| + k
    ensures WithTail(a, k)[i] == if i < |a| then a[i] else a[i - k]
  {
  }

  lemma Doubled(m: nat, p: nat)
    requires m > 0
    ensures m * (2 * p) == 2 * (m * p) && p <= m * p
  {
  }

  /** The longer row has the same depth, and at each place the same item or its copy. */
  lemma {:induction false} RepeatedSource(n: nat, m: nat, j: nat, k: nat)
    requires m % 2 == 1 && m > 1 && n == m * Pow2(j)
    ensures 0 < Pow2(j) <= n && Depth(n + Pow2(j)) == Depth(n)
    ensures var s := Source(n + Pow2(j), k);
            Source(n, k) == if s < n then s else s - Pow2(j)
    decreases j
  {
    if j == 0 {
      OddSource(n, k);
    } else {
      var p := Pow2(j - 1);
      Doubled(m, p);
      var q := m * p;
      RepeatedSource(q, m, j - 1, k / 2);
      EvenSource(q, p, k);
      assert n == 2 * q && Pow2(j) == 2 * p;
    }
  }

  lemma OddSource(n: nat, k: nat)
    requires n % 2 == 1 && n > 1
    ensures Depth(n + 1) == Depth(n)
    ensures Source(n, k) == if Source(n + 1, k) < n then Source(n + 1, k) else Source(n + 1, k) - 1
  {
    assert (n + 1 + 1) / 2 == (n + 1) / 2;
  }

  lemma EvenSource(q: nat, p: nat, k: nat)
    requires 0 < p <= q && Depth(q + p) == Depth(q)
    requires Source(q, k / 2) == if Source(q + p, k / 2) < q then Source(q + p, k / 2) else Source(q + p, k / 2) - p
    ensures Depth(2 * q + 2 * p) == Depth(2 * q)
    ensures var s := Source(2 * q + 2 * p, k);
            Source(2 * q, k) == if s < 2 * q then s else s - 2 * p
  {
    assert (2 * q + 1) / 2 == q && (2 * q + 2 * p + 1) / 2 == q + p;
  }

  /** Over m * 2^j items, m odd and above one, repeating the last 2^j does not change the completion. */
  lemma RepeatedTailCompletes<T>(a: seq<T>, m: nat, j: nat)
    requires m % 2 == 1 && m > 1 && |a| == m * Pow2(j)
    ensures 0 < Pow2(j) <= |a| && Completed(WithTail(a, Pow2(j))) == Completed(a)
  {
    var n, p := |a|, Pow2(j);
    RepeatedSource(n, m, j, 0);
    forall k | 0 <= k < Pow2(Depth(n))
      ensures Completed(WithTail(a, p))[k] == Completed(a)[k]
    {
      RepeatedSource(n, m, j, k);
      TailAt(a, p, Source(n + p, k));
    }
  }

  /**
   So the root does not determine the number of leaves: over m * 2^j leaves, m odd and above one,
   appending a copy of the last 2^j leaves keeps the root as it was.
   */
  lemma RepeatedTailKeepsRoot(H: HashFn, a: seq<Hash>, m: nat, j: nat)
    requires m % 2 == 1 && m > 1
    requires |a| == m * Pow2(j)
    ensures Pow2(j) <= |a|
    ensures Root(H, WithTail(a, Pow2(j))) == Root(H, a)
  {
    RepeatedTailCompletes(a, m, j);
    RootOfCompleted(H, a);
    RootOfCompleted(H, WithTail(a, Pow2(j)));
  }

  // ---------- transactions under a root ----------

  function Txids(H: HashFn, txs: seq<Transaction>): (ids: seq<Hash>)
    ensures |ids| == |txs|
    ensures forall i :: 0 <= i < |txs| ==> ids[i] == TxidOf(H, txs[i])
  {
    if txs == [] then [] else [TxidOf(H, txs[0])] + Txids(H, txs[1..])
  }

  function MerkleRoot(H: HashFn, txs: seq<Transaction>): Hash { Root(H, Txids(H, txs)) }

  method ComputeMerkleRoot(H: HashFn, txs: seq<Transaction>) returns (root: Hash)
    ensures root == MerkleRoot(H, txs)
  {
    if |txs| == 0 {
      return ZERO_HASH;
    }
    var hashes: seq<Hash> := [];
    for i := 0 to |txs|
      invariant |hashes| == i
      invariant forall k :: 0 <= k < i ==> hashes[k] == TxidOf(H, txs[k])
    {
      var buf := BuildPreimage(txs[i]);
      hashes := hashes + [H(buf)];
    }
    assert hashes == Txids(H, txs);
    root := ComputeMerkleRootFromHashes(H, hashes);
  }

  /** Every byte string hashed for a block's transactions. */
  ghost function BlockHashed(H: HashFn, txs: seq<Transaction>): set<seq<byte>> {
    (set tx | tx in txs :: Preimage(tx)) + Hashed(H, Txids(H, txs))
  }

  /**
   A header commits to the block's payments: as many transactions under the same root are the same up
   to signatures and keys, or two of the strings hashed for them collide.
   */
  lemma HeaderCommits(H: HashFn, a: seq<Transaction>, b: seq<Transaction>) returns (x: seq<byte>, y: seq<byte>)
    requires |a| == |b| && MerkleRoot(H, a) == MerkleRoot(H, b)
    requires forall tx :: tx in a || tx in b ==> ByteSized(CoreOf(tx))
    ensures (forall i :: 0 <= i < |a| ==> CoreOf(a[i]) == CoreOf(b[i]))
         || (x in BlockHashed(H, a) && y in BlockHashed(H, b) && Collide(H, x, y))
  {
    x, y := [], [];
    if Txids(H, a) != Txids(H, b) {
      x, y := RootCommits(H, Txids(H, a), Txids(H, b));
    } else if i :| 0 <= i < |a| && CoreOf(a[i]) != CoreOf(b[i]) {
      x, y := Preimage(a[i]), Preimage(b[i]);
      assert a[i] in a && b[i] in b;
      if x == y {
        CoreBytesInjective(CoreOf(a[i]), CoreOf(b[i]));
      }
      assert Txids(H, a)[i] == H(x) && Txids(H, b)[i] == H(y);
    }
  }

  lemma TxidsOfCompleted(H: HashFn, txs: seq<Transaction>)
    requires txs != []
    ensures Txids(H, Completed(txs)) == Completed(Txids(H, txs))
  {
    CompletedImages((tx: Transaction) => TxidOf(H, tx), txs, Txids(H, txs), Txids(H, Completed(txs)));
  }

  lemma CompletedImages<T, U>(f: T -> U, xs: seq<T>, ys: seq<U>, zs: seq<U>)
    requires xs != [] && |ys| == |xs| && |zs| == |Completed(xs)|
    requires forall i :: 0 <= i < |xs| ==> ys[i] == f(xs[i])
    requires forall k :: 0 <= k < |zs| ==> zs[k] == f(Completed(xs)[k])
    ensures zs == Completed(ys)
  {
  }

  /**
   Whatever the two counts, as long as the trees have one depth: blocks under one root have the same
   completed lists of payments, or two of the strings hashed for them collide.
   */
  lemma HeaderCommitsToCompletion(H: HashFn, a: seq<Transaction>, b: seq<Transaction>)
      returns (x: seq<byte>, y: seq<byte>)
    requires a != [] && b != [] && Depth(|a|) == Depth(|b|) && MerkleRoot(H, a) == MerkleRoot(H, b)
    requires forall tx :: tx in a || tx in b ==> ByteSized(CoreOf(tx))
    ensures (forall k :: 0 <= k < |Completed(a)| ==> CoreOf(Completed(a)[k]) == CoreOf(Completed(b)[k]))
         || (x in BlockHashed(H, a) && y in BlockHashed(H, b) && Collide(H, x, y))
  {
    CompletedBlock(H, a);
    CompletedBlock(H, b);
    x, y := HeaderCommits(H, Completed(a), Completed(b));
  }

  lemma CompletedBlock(H: HashFn, txs: seq<Transaction>)
    requires txs != []
    ensures MerkleRoot(H, Completed(txs)) == MerkleRoot(H, txs)
    ensures BlockHashed(H, Completed(txs)) <= BlockHashed(H, txs)
    ensures forall tx :: tx in Completed(txs) ==> tx in txs
  {
    TxidsOfCompleted(H, txs);
    RootOfCompleted(H, Txids(H, txs));
  }
}
