/** What a transaction id hashes and what it commits to. */
module Txid {
  import opened Bytes
  import opened Types
  import opened Codec

  /** A transaction without its signatures and public keys: all an id can depend on. */
  datatype Core = Core(version: u32, spends: seq<OutPoint>, outputs: seq<TxOutput>, lockTime: u32)

  function Spends(ins: seq<TxInput>): (ops: seq<OutPoint>)
    ensures |ops| == |ins|
    ensures forall i :: 0 <= i < |ins| ==> ops[i] == ins[i].Spends()
  {
    if ins == [] then [] else [ins[0].Spends()] + Spends(ins[1..])
  }

  function CoreOf(tx: Transaction): Core {
    Core(tx.version, Spends(tx.inputs), tx.outputs, tx.lockTime)
  }

  function OutPointBytes(op: OutPoint): seq<byte> { op.hash + LE(op.index, 4) }

  /** The script length is cast to one byte. */
  function ShortOutputBytes(o: TxOutput): seq<byte> {
    LE(o.amount, 8) + ([|o.scriptPubkey| % 256] + o.scriptPubkey)
  }

  /** The two counts are cast to one byte each. */
  function CoreBytes(c: Core): seq<byte> {
    LE(c.version, 4) + ([|c.spends| % 256] + (PrintAll(OutPointBytes, c.spends)
    + ([|c.outputs| % 256] + (PrintAll(ShortOutputBytes, c.outputs) + LE(c.lockTime, 4)))))
  }

  function Preimage(tx: Transaction): seq<byte> { CoreBytes(CoreOf(tx)) }

  function TxidOf(H: HashFn, tx: Transaction): Hash { H(Preimage(tx)) }

  /** The input count and the script lengths survive their one-byte casts; the output count need not. */
  predicate ByteSized(c: Core) { |c.spends| <= 255 && ShortScripts(c.outputs) }

  predicate ShortScripts(outs: seq<TxOutput>) { forall o :: o in outs ==> |o.scriptPubkey| <= 255 }

  // ---------- commitment ----------

  /** Two concatenations whose first parts have one length split the same way. */
  lemma Split(a: seq<byte>, r: seq<byte>, b: seq<byte>, s: seq<byte>)
    requires |a| == |b| && a + r == b + s
    ensures a == b && r == s
  {
    assert (a + r)[..|a|] == a && (b + s)[..|b|] == b;
    assert (a + r)[|a|..] == r && (b + s)[|b|..] == s;
  }

  lemma OutPointSplits(a: OutPoint, r: seq<byte>, b: OutPoint, s: seq<byte>)
    requires OutPointBytes(a) + r == OutPointBytes(b) + s
    ensures a == b && r == s
  {
    Split(OutPointBytes(a), r, OutPointBytes(b), s);
    Split(a.hash, LE(a.index, 4), b.hash, LE(b.index, 4));
    Widths();
    LEInjective(a.index, b.index, 4);
  }

  lemma OutputSplits(a: TxOutput, r: seq<byte>, b: TxOutput, s: seq<byte>)
    requires |a.scriptPubkey| <= 255 && |b.scriptPubkey| <= 255
    requires ShortOutputBytes(a) + r == ShortOutputBytes(b) + s
    ensures a == b && r == s
  {
    var x := [|a.scriptPubkey| % 256] + a.scriptPubkey;
    var y := [|b.scriptPubkey| % 256] + b.scriptPubkey;
    assert ShortOutputBytes(a) + r == LE(a.amount, 8) + (x + r);
    assert ShortOutputBytes(b) + s == LE(b.amount, 8) + (y + s);
    Split(LE(a.amount, 8), x + r, LE(b.amount, 8), y + s);
    Widths();
    LEInjective(a.amount, b.amount, 8);
    assert (x + r)[0] == |a.scriptPubkey| && (y + s)[0] == |b.scriptPubkey|;
    Split(x, r, y, s);
    assert x[1..] == a.scriptPubkey && y[1..] == b.scriptPubkey;
  }

  /** Items that split one at a time split in a row, when the rows have one length. */
  lemma {:induction false} RowSplits<T(!new)>(
      show: T -> seq<byte>, xs: seq<T>, r: seq<byte>, ys: seq<T>, s: seq<byte>)
    requires |xs| == |ys|
    requires forall a, b, t, u | a in xs && b in ys && show(a) + t == show(b) + u :: a == b && t == u
    requires PrintAll(show, xs) + r == PrintAll(show, ys) + s
    ensures xs == ys && r == s
  {
    if xs == [] {
      assert PrintAll(show, xs) + r == r && PrintAll(show, ys) + s == s;
    } else {
      var t := PrintAll(show, xs[1..]) + r;
      var u := PrintAll(show, ys[1..]) + s;
      assert PrintAll(show, xs) + r == show(xs[0]) + t;
      assert PrintAll(show, ys) + s == show(ys[0]) + u;
      assert xs[0] == ys[0] && t == u;
      RowSplits(show, xs[1..], r, ys[1..], s);
      assert xs == [xs[0]] + xs[1..] && ys == [ys[0]] + ys[1..];
    }
  }

  /**
   With at most 255 inputs and scripts of at most 255 bytes the hashed bytes determine everything but
   signatures and keys, whatever the number of outputs.
   */
  lemma CoreBytesInjective(a: Core, b: Core)
    requires ByteSized(a) && ByteSized(b)
    requires CoreBytes(a) == CoreBytes(b)
    ensures a == b
  {
    CoreBytesSplit(a, b);
    SpendsSplit(a.spends, OutputHalf(a), b.spends, OutputHalf(b));
    var x := PrintAll(ShortOutputBytes, a.outputs) + LE(a.lockTime, 4);
    var y := PrintAll(ShortOutputBytes, b.outputs) + LE(b.lockTime, 4);
    Split([|a.outputs| % 256], x, [|b.outputs| % 256], y);
    OutputsSplit(a.outputs, LE(a.lockTime, 4), b.outputs, LE(b.lockTime, 4));
    Widths();
    LEInjective(a.lockTime, b.lockTime, 4);
  }

  /** What is hashed after the spent outpoints. */
  function OutputHalf(c: Core): seq<byte> {
    [|c.outputs| % 256] + (PrintAll(ShortOutputBytes, c.outputs) + LE(c.lockTime, 4))
  }

  /** Version and input count are always hashed unambiguously, the count up to its cast. */
  lemma CoreBytesSplit(a: Core, b: Core)
    requires CoreBytes(a) == CoreBytes(b)
    ensures a.version == b.version && |a.spends| % 256 == |b.spends| % 256
    ensures PrintAll(OutPointBytes, a.spends) + OutputHalf(a) == PrintAll(OutPointBytes, b.spends) + OutputHalf(b)
  {
    var a1 := PrintAll(OutPointBytes, a.spends) + OutputHalf(a);
    var b1 := PrintAll(OutPointBytes, b.spends) + OutputHalf(b);
    Split(LE(a.version, 4), [|a.spends| % 256] + a1, LE(b.version, 4), [|b.spends| % 256] + b1);
    Split([|a.spends| % 256], a1, [|b.spends| % 256], b1);
    assert [|a.spends| % 256][0] == [|b.spends| % 256][0];
    Widths();
    LEInjective(a.version, b.version, 4);
  }

  lemma SpendsSplit(xs: seq<OutPoint>, r: seq<byte>, ys: seq<OutPoint>, s: seq<byte>)
    requires |xs| == |ys| && PrintAll(OutPointBytes, xs) + r == PrintAll(OutPointBytes, ys) + s
    ensures xs == ys && r == s
  {
    forall a, b, t, u | OutPointBytes(a) + t == OutPointBytes(b) + u
      ensures a == b && t == u
    {
      OutPointSplits(a, t, b, u);
    }
    RowSplits(OutPointBytes, xs, r, ys, s);
  }

  lemma {:induction false} SpendsLength(ops: seq<OutPoint>)
    ensures |PrintAll(OutPointBytes, ops)| == 36 * |ops|
  {
    if ops != [] {
      SpendsLength(ops[1..]);
    }
  }

  lemma NoBytesNoOutputs(outs: seq<TxOutput>)
    requires PrintAll(ShortOutputBytes, outs) == []
    ensures outs == []
  {
  }

  /** Short scripts make the outputs a prefix code: rows before tails of one length split, whatever their counts. */
  lemma {:induction false} OutputsSplit(xs: seq<TxOutput>, r: seq<byte>, ys: seq<TxOutput>, s: seq<byte>)
    requires ShortScripts(xs) && ShortScripts(ys) && |r| == |s|
    requires PrintAll(ShortOutputBytes, xs) + r == PrintAll(ShortOutputBytes, ys) + s
    ensures xs == ys && r == s
  {
    if xs == [] || ys == [] {
      assert |PrintAll(ShortOutputBytes, xs)| == |PrintAll(ShortOutputBytes, ys)| == 0;
      NoBytesNoOutputs(xs);
      NoBytesNoOutputs(ys);
      assert [] + r == r && [] + s == s;
    } else {
      var t := PrintAll(ShortOutputBytes, xs[1..]) + r;
      var u := PrintAll(ShortOutputBytes, ys[1..]) + s;
      assert PrintAll(ShortOutputBytes, xs) + r == ShortOutputBytes(xs[0]) + t;
      assert PrintAll(ShortOutputBytes, ys) + s == ShortOutputBytes(ys[0]) + u;
      OutputSplits(xs[0], t, ys[0], u);
      OutputsSplit(xs[1..], r, ys[1..], s);
      assert xs == [xs[0]] + xs[1..] && ys == [ys[0]] + ys[1..];
    }
  }

  // ---------- the cached id ----------

  /** A transaction object with its lazily computed id. */
  class CachedTransaction {
    var tx: Transaction
    var cachedTxid: Option<Hash>

    constructor (tx: Transaction)
      ensures this.tx == tx && cachedTxid == None
    {
      this.tx := tx;
      cachedTxid := None;
    }

    /** The cache is empty or right. */
    ghost predicate Coherent(H: HashFn)
      reads this
    {
      cachedTxid.Some? ==> cachedTxid.value == TxidOf(H, tx)
    }

    method GetTxid(H: HashFn) returns (txid: Hash)
      modifies this`cachedTxid
      ensures txid == if old(cachedTxid).Some? then old(cachedTxid).value else TxidOf(H, tx)
      ensures cachedTxid == Some(txid)
      ensures old(Coherent(H)) ==> txid == TxidOf(H, tx) && Coherent(H)
    {
      if cachedTxid.Some? {
        return cachedTxid.value;
      }
      var buf := BuildPreimage(tx);
      txid := H(buf);
      cachedTxid := Some(txid);
    }

    /** Signing an input changes the object but not its id, so the cache stays right. */
    method SetSignature(H: HashFn, i: nat, signature: seq<byte>, pubkey: seq<byte>)
      requires i < |tx.inputs|
      modifies this`tx
      ensures tx == old(tx).(inputs := old(tx).inputs[
                i := old(tx).inputs[i].(signature := signature, pubkey := pubkey)])
      ensures TxidOf(H, tx) == old(TxidOf(H, tx))
      ensures old(Coherent(H)) ==> Coherent(H)
    {
      var ins := tx.inputs[i := tx.inputs[i].(signature := signature, pubkey := pubkey)];
      assert Spends(ins) == Spends(tx.inputs);
      tx := tx.(inputs := ins);
    }
  }

  method AppendSpends(ins: seq<TxInput>, buf: seq<byte>) returns (res: seq<byte>)
    ensures res == buf + PrintAll(OutPointBytes, Spends(ins))
  {
    res := buf;
    for i := 0 to |ins|
      invariant res + PrintAll(OutPointBytes, Spends(ins)[i..]) == buf + PrintAll(OutPointBytes, Spends(ins))
    {
      NextItem(OutPointBytes, Spends(ins), i, res);
      res := res + (ins[i].prevTxHash + LE(ins[i].outputIndex, 4));
    }
    assert res == res + PrintAll(OutPointBytes, Spends(ins)[|ins|..]);
  }

  method AppendOutputs(outs: seq<TxOutput>, buf: seq<byte>) returns (res: seq<byte>)
    ensures res == buf + PrintAll(ShortOutputBytes, outs)
  {
    res := buf;
    for j := 0 to |outs|
      invariant res + PrintAll(ShortOutputBytes, outs[j..]) == buf + PrintAll(ShortOutputBytes, outs)
    {
      NextItem(ShortOutputBytes, outs, j, res);
      res := res + (LE(outs[j].amount, 8) + ([|outs[j].scriptPubkey| % 256] + outs[j].scriptPubkey));
    }
    assert res == res + PrintAll(ShortOutputBytes, outs[|outs|..]);
  }

  method BuildPreimage(tx: Transaction) returns (buf: seq<byte>)
    ensures buf == Preimage(tx)
  {
    buf := LE(tx.version, 4) + [|tx.inputs| % 256];
    buf := AppendSpends(tx.inputs, buf);
    buf := buf + [|tx.outputs| % 256];
    buf := AppendOutputs(tx.outputs, buf);
    buf := buf + LE(tx.lockTime, 4);
    Nest(LE(tx.version, 4), [|tx.inputs| % 256], PrintAll(OutPointBytes, Spends(tx.inputs)),
         [|tx.outputs| % 256], PrintAll(ShortOutputBytes, tx.outputs), LE(tx.lockTime, 4));
  }

  lemma Nest(a: seq<byte>, b: seq<byte>, c: seq<byte>, d: seq<byte>, e: seq<byte>, f: seq<byte>)
    ensures a + b + c + d + e + f == a + (b + (c + (d + (e + f))))
  {
    assert (a + b + c + d) + e + f == (a + b + c) + (d + (e + f));
    assert (a + b + c) + (d + (e + f)) == (a + b) + (c + (d + (e + f)));
  }
}
