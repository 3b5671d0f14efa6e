/** The printers and parsers as the program runs them: appending to a buffer, moving a cursor. */
module CodecLoops {
  import opened Bytes
  import opened Types
  import opened Codec

  method WriteU32(out: seq<byte>, v: u32) returns (res: seq<byte>)
    ensures res == out + LE(v, 4)
  {
    res := out + [v % 256, v / 0x100 % 256, v / 0x1_0000 % 256, v / 0x100_0000 % 256];
    FourLowBytes(v);
  }

  method WriteU64(out: seq<byte>, v: u64) returns (res: seq<byte>)
    ensures res == out + LE(v, 8)
  {
    res := out;
    var rem: nat := v;
    for i := 0 to 8
      invariant res + LE(rem, 8 - i) == out + LE(v, 8)
    {
      assert LE(rem, 8 - i) == [rem % 256] + LE(rem / 256, 7 - i);
      assert res + ([rem % 256] + LE(rem / 256, 7 - i)) == (res + [rem % 256]) + LE(rem / 256, 7 - i);
      res := res + [rem % 256];
      rem := rem / 256;
    }
  }

  method WriteVarInt(out: seq<byte>, n: nat) returns (res: seq<byte>)
    ensures res == out + VarInt(n)
  {
    if n < 0xfd {
      res := out + [n];
    } else if n <= 0xffff {
      res := out + [0xfd, n % 256, n / 256 % 256];
      assert LE(n, 2) == [n % 256] + LE(n / 256, 1);
    } else {
      var low: u32 := n % 0x1_0000_0000;
      res := WriteU32(out + [0xfe], low);
      TruncatedLE(n);
    }
  }

  lemma FourLowBytes(n: nat)
    ensures LE(n, 4) == [n % 256, n / 0x100 % 256, n / 0x1_0000 % 256, n / 0x100_0000 % 256]
  {
    assert n / 0x100 / 0x100 == n / 0x1_0000 && n / 0x1_0000 / 0x100 == n / 0x100_0000;
    assert LE(n, 4) == [n % 256] + LE(n / 0x100, 3);
    assert LE(n / 0x100, 3) == [n / 0x100 % 256] + LE(n / 0x1_0000, 2);
    assert LE(n / 0x1_0000, 2) == [n / 0x1_0000 % 256] + LE(n / 0x100_0000, 1);
    assert LE(n / 0x100_0000, 1) == [n / 0x100_0000 % 256];
  }

  /** Bits above the four low bytes play no part in them. */
  lemma TruncatedLE(n: nat)
    ensures LE(n, 4) == LE(n % 0x1_0000_0000, 4)
  {
    Widths();
    FromLEWraps(n, 4);
    LEFromLE(LE(n, 4));
  }

  method WriteScript(out: seq<byte>, s: seq<byte>) returns (res: seq<byte>)
    ensures res == out + LengthPrefixed(s)
  {
    res := WriteVarInt(out, |s|);
    res := res + s;
  }

  method WriteInput(i: TxInput, out: seq<byte>) returns (res: seq<byte>)
    ensures res == out + InputBytes(i)
  {
    res := WriteU32(out + i.prevTxHash, i.outputIndex);
    res := WriteScript(res, i.signature);
    res := WriteScript(res, i.pubkey);
    Four(out, i.prevTxHash, LE(i.outputIndex, 4), LengthPrefixed(i.signature), LengthPrefixed(i.pubkey));
  }

  /** Appending one after another against printing in one expression. */
  lemma Four(out: seq<byte>, a: seq<byte>, b: seq<byte>, c: seq<byte>, d: seq<byte>)
    ensures out + a + b + c + d == out + (a + (b + (c + d)))
  {
    assert (out + a + b + c) + d == (out + a + b) + (c + d);
    assert (out + a + b) + (c + d) == (out + a) + (b + (c + d));
  }

  lemma Six(out: seq<byte>, a: seq<byte>, b: seq<byte>, c: seq<byte>, d: seq<byte>, e: seq<byte>, f: seq<byte>)
    ensures out + a + b + c + d + e + f == out + (a + (b + (c + (d + (e + f)))))
  {
    Four(out + a + b, c, d, e, f);
    var rest := c + (d + (e + f));
    assert (out + a + b) + rest == (out + a) + (b + rest);
    assert (out + a) + (b + rest) == out + (a + (b + rest));
  }

  method WriteInputs(ins: seq<TxInput>, out: seq<byte>) returns (res: seq<byte>)
    ensures res == out + PrintAll(InputBytes, ins)
  {
    res := out;
    for i := 0 to |ins|
      invariant res + PrintAll(InputBytes, ins[i..]) == out + PrintAll(InputBytes, ins)
    {
      NextItem(InputBytes, ins, i, res);
      res := WriteInput(ins[i], res);
    }
    assert res == res + PrintAll(InputBytes, ins[|ins|..]);
  }

  method WriteOutput(o: TxOutput, out: seq<byte>) returns (res: seq<byte>)
    ensures res == out + OutputBytes(o)
  {
    res := WriteU64(out, o.amount);
    res := WriteScript(res, o.scriptPubkey);
    Three(out, LE(o.amount, 8), LengthPrefixed(o.scriptPubkey));
  }

  method WriteOutputs(outs: seq<TxOutput>, out: seq<byte>) returns (res: seq<byte>)
    ensures res == out + PrintAll(OutputBytes, outs)
  {
    res := out;
    for i := 0 to |outs|
      invariant res + PrintAll(OutputBytes, outs[i..]) == out + PrintAll(OutputBytes, outs)
    {
      NextItem(OutputBytes, outs, i, res);
      res := WriteOutput(outs[i], res);
    }
    assert res == res + PrintAll(OutputBytes, outs[|outs|..]);
  }

  method SerializeTransaction(tx: Transaction, out: seq<byte>) returns (res: seq<byte>)
    ensures res == out + TxBytes(tx)
  {
    res := WriteU32(out, tx.version);
    res := WriteVarInt(res, |tx.inputs|);
    res := WriteInputs(tx.inputs, res);
    res := WriteVarInt(res, |tx.outputs|);
    res := WriteOutputs(tx.outputs, res);
    res := WriteU32(res, tx.lockTime);
    Six(out, LE(tx.version, 4), VarInt(|tx.inputs|), PrintAll(InputBytes, tx.inputs),
        VarInt(|tx.outputs|), PrintAll(OutputBytes, tx.outputs), LE(tx.lockTime, 4));
  }

  method WriteTxs(txs: seq<Transaction>, out: seq<byte>) returns (res: seq<byte>)
    ensures res == out + PrintAll(TxBytes, txs)
  {
    res := out;
    for i := 0 to |txs|
      invariant res + PrintAll(TxBytes, txs[i..]) == out + PrintAll(TxBytes, txs)
    {
      NextItem(TxBytes, txs, i, res);
      res := SerializeTransaction(txs[i], res);
    }
    assert res == res + PrintAll(TxBytes, txs[|txs|..]);
  }

  method WriteHeader(h: BlockHeader) returns (out: seq<byte>)
    ensures out == StoredHeader(h)
  {
    out := WriteU32([], h.version);
    out := out + h.previousHash + h.merkleRoot;
    out := WriteU64(out, h.timestamp);
    out := WriteU32(out, h.difficultyTarget);
    out := WriteU32(out, h.nonce);
    Six([], LE(h.version, 4), h.previousHash, h.merkleRoot, LE(h.timestamp, 8),
        LE(h.difficultyTarget, 4), LE(h.nonce, 4));
    assert [] + StoredHeader(h) == StoredHeader(h);
  }

  method SerializeBlock(b: Block) returns (out: seq<byte>)
    ensures out == BlockBytes(b)
  {
    out := WriteHeader(b.header);
    out := WriteVarInt(out, |b.transactions|);
    out := WriteTxs(b.transactions, out);
    Three(StoredHeader(b.header), VarInt(|b.transactions|), PrintAll(TxBytes, b.transactions));
  }

  lemma Three(a: seq<byte>, b: seq<byte>, c: seq<byte>)
    ensures a + b + c == a + (b + c)
  {
  }

  // ---------- parsing ----------

  /** The cursor version of a parse: where the specification leaves a rest, the cursor has moved to it. */
  ghost predicate Moved<T>(data: seq<byte>, pos: nat, p: Parse<T>, ok: bool, pos': nat) {
    && pos <= pos' <= |data|
    && ok == p.Done?
    && (ok ==> data[pos'..] == p.rest)
  }

  method Read(data: seq<byte>, pos: nat, n: nat) returns (ok: bool, pos': nat, dst: seq<byte>)
    requires pos <= |data|
    ensures Moved(data, pos, Take(data[pos..], n), ok, pos')
    ensures ok ==> dst == Take(data[pos..], n).value
  {
    if pos + n > |data| {
      return false, pos, [];
    }
    dst := data[pos..pos + n];
    assert data[pos..][..n] == dst && data[pos..][n..] == data[pos + n..];
    return true, pos + n, dst;
  }

  method ReadU32(data: seq<byte>, pos: nat) returns (ok: bool, pos': nat, v: u32)
    requires pos <= |data|
    ensures Moved(data, pos, ParseU32(data[pos..]), ok, pos')
    ensures ok ==> v == ParseU32(data[pos..]).value
  {
    var dst;
    ok, pos', dst := Read(data, pos, 4);
    v := 0;
    if ok {
      FromLEBound(dst); Widths();
      v := FromLE(dst);
    }
  }

  method ReadU64(data: seq<byte>, pos: nat) returns (ok: bool, pos': nat, v: u64)
    requires pos <= |data|
    ensures Moved(data, pos, ParseU64(data[pos..]), ok, pos')
    ensures ok ==> v == ParseU64(data[pos..]).value
  {
    var dst;
    ok, pos', dst := Read(data, pos, 8);
    v := 0;
    if ok {
      FromLEBound(dst); Widths();
      v := FromLE(dst);
    }
  }

  method ReadHash(data: seq<byte>, pos: nat) returns (ok: bool, pos': nat, h: Hash)
    requires pos <= |data|
    ensures Moved(data, pos, ParseHash(data[pos..]), ok, pos')
    ensures ok ==> h == ParseHash(data[pos..]).value
  {
    var dst;
    ok, pos', dst := Read(data, pos, 32);
    h := if ok then dst else ZERO_HASH;
  }

  method ReadVarInt(data: seq<byte>, pos: nat) returns (ok: bool, pos': nat, n: nat)
    requires pos <= |data|
    ensures Moved(data, pos, ParseVarInt(data[pos..]), ok, pos')
    ensures ok ==> n == ParseVarInt(data[pos..]).value
  {
    ghost var bs := data[pos..];
    if pos >= |data| {
      return false, pos, 0;
    }
    if data[pos] < 0xfd {
      assert bs[1..] == data[pos + 1..];
      return true, pos + 1, data[pos];
    }
    if data[pos] == 0xfd && pos + 3 <= |data| {
      assert bs[3..] == data[pos + 3..];
      n := data[pos + 1] as int + data[pos + 2] as int * 0x100;
      TwoBytes(bs[1..3]);
      return true, pos + 3, n;
    }
    if data[pos] == 0xfe && pos + 5 <= |data| {
      assert bs[5..] == data[pos + 5..];
      var low := data[pos + 1] as int + data[pos + 2] as int * 0x100 + data[pos + 3] as int * 0x1_0000;
      var top := data[pos + 4] as int * 0x100_0000;
      FourBytes(bs[1..5]);
      n := SignExtend(low + top);
      return true, pos + 5, n;
    }
    return false, pos, 0;
  }

  lemma TwoBytes(w: seq<byte>)
    requires |w| == 2
    ensures FromLE(w) == w[0] as int + w[1] as int * 0x100
  {
    assert FromLE(w[1..]) == w[1] + 256 * FromLE(w[1..][1..]);
  }

  lemma FourBytes(w: seq<byte>)
    requires |w| == 4
    ensures FromLE(w) == w[0] as int + w[1] as int * 0x100 + w[2] as int * 0x1_0000 + w[3] as int * 0x100_0000
  {
    TwoBytes(w[2..]);
    assert w[1..][1..] == w[2..];
    assert FromLE(w[1..]) == w[1] + 256 * FromLE(w[2..]);
  }

  method ReadScript(data: seq<byte>, pos: nat) returns (ok: bool, pos': nat, s: seq<byte>)
    requires pos <= |data|
    ensures Moved(data, pos, ParseScript(data[pos..]), ok, pos')
    ensures ok ==> s == ParseScript(data[pos..]).value
  {
    var n;
    ok, pos', n := ReadVarInt(data, pos);
    if !ok || n > MAX_SCRIPT {
      return false, pos', [];
    }
    ok, pos', s := Read(data, pos', n);
  }

  method ReadInput(data: seq<byte>, pos: nat) returns (ok: bool, pos': nat, i: TxInput)
    requires pos <= |data|
    ensures Moved(data, pos, ParseInput(data[pos..]), ok, pos')
    ensures ok ==> i == ParseInput(data[pos..]).value
  {
    i := TxInput(ZERO_HASH, 0, [], []);
    var hash, index, sig, pk;
    ok, pos', hash := ReadHash(data, pos);
    if !ok { return; }
    ok, pos', index := ReadU32(data, pos');
    if !ok { return; }
    ok, pos', sig := ReadScript(data, pos');
    if !ok { return; }
    ok, pos', pk := ReadScript(data, pos');
    if !ok { return; }
    i := TxInput(hash, index, sig, pk);
  }

  method ReadOutput(data: seq<byte>, pos: nat) returns (ok: bool, pos': nat, o: TxOutput)
    requires pos <= |data|
    ensures Moved(data, pos, ParseOutput(data[pos..]), ok, pos')
    ensures ok ==> o == ParseOutput(data[pos..]).value
  {
    o := TxOutput(0, []);
    var amount, script;
    ok, pos', amount := ReadU64(data, pos);
    if !ok { return; }
    ok, pos', script := ReadScript(data, pos');
    if !ok { return; }
    o := TxOutput(amount, script);
  }

  /** What remains of a row of items after some were read, put behind those. */
  function After<T>(done: seq<T>, p: Parse<seq<T>>): Parse<seq<T>> {
    if p.Fail? then Fail else Done(done + p.value, p.rest)
  }

  lemma AfterNothing<T>(p: Parse<seq<T>>)
    ensures After([], p) == p
  {
    if p.Done? {
      assert [] + p.value == p.value;
    }
  }

  lemma AfterStep<T>(item: seq<byte> -> Parse<T>, done: seq<T>, bs: seq<byte>, n: nat)
    requires n > 0
    ensures After(done, Repeat(item, bs, n)) ==
            if item(bs).Fail? then Fail else After(done + [item(bs).value], Repeat(item, item(bs).rest, n - 1))
  {
    if item(bs).Done? {
      var tail := Repeat(item, item(bs).rest, n - 1);
      if tail.Done? {
        assert done + ([item(bs).value] + tail.value) == (done + [item(bs).value]) + tail.value;
      }
    }
  }

  method ReadInputs(data: seq<byte>, pos: nat, n: nat) returns (ok: bool, pos': nat, ins: seq<TxInput>)
    requires pos <= |data|
    ensures Moved(data, pos, Repeat(ParseInput, data[pos..], n), ok, pos')
    ensures ok ==> ins == Repeat(ParseInput, data[pos..], n).value
  {
    pos', ins := pos, [];
    AfterNothing(Repeat(ParseInput, data[pos..], n));
    for i := 0 to n
      invariant pos <= pos' <= |data|
      invariant Repeat(ParseInput, data[pos..], n) == After(ins, Repeat(ParseInput, data[pos'..], n - i))
    {
      AfterStep(ParseInput, ins, data[pos'..], n - i);
      var item;
      ok, pos', item := ReadInput(data, pos');
      if !ok { return; }
      ins := ins + [item];
    }
    ok := true;
  }

  method ReadOutputs(data: seq<byte>, pos: nat, n: nat) returns (ok: bool, pos': nat, outs: seq<TxOutput>)
    requires pos <= |data|
    ensures Moved(data, pos, Repeat(ParseOutput, data[pos..], n), ok, pos')
    ensures ok ==> outs == Repeat(ParseOutput, data[pos..], n).value
  {
    pos', outs := pos, [];
    AfterNothing(Repeat(ParseOutput, data[pos..], n));
    for i := 0 to n
      invariant pos <= pos' <= |data|
      invariant Repeat(ParseOutput, data[pos..], n) == After(outs, Repeat(ParseOutput, data[pos'..], n - i))
    {
      AfterStep(ParseOutput, outs, data[pos'..], n - i);
      var item;
      ok, pos', item := ReadOutput(data, pos');
      if !ok { return; }
      outs := outs + [item];
    }
    ok := true;
  }

  method DeserializeTransaction(data: seq<byte>, pos: nat) returns (ok: bool, pos': nat, tx: Transaction)
    requires pos <= |data|
    ensures Moved(data, pos, ParseTx(data[pos..]), ok, pos')
    ensures ok ==> tx == ParseTx(data[pos..]).value
  {
    tx := Transaction(1, [], [], 0);
    var version, nIn, nOut, lockTime, ins, outs;
    ok, pos', version := ReadU32(data, pos);
    if !ok { return; }
    ok, pos', nIn := ReadVarInt(data, pos');
    if !ok { return; }
    ok, pos', ins := ReadInputs(data, pos', nIn);
    if !ok { return; }
    ok, pos', nOut := ReadVarInt(data, pos');
    if !ok { return; }
    ok, pos', outs := ReadOutputs(data, pos', nOut);
    if !ok { return; }
    ok, pos', lockTime := ReadU32(data, pos');
    if !ok { return; }
    tx := Transaction(version, ins, outs, lockTime);
  }

  method ReadHeader(data: seq<byte>, pos: nat) returns (ok: bool, pos': nat, h: BlockHeader)
    requires pos <= |data|
    ensures Moved(data, pos, ParseHeader(data[pos..]), ok, pos')
    ensures ok ==> h == ParseHeader(data[pos..]).value
  {
    h := BlockHeader(1, ZERO_HASH, ZERO_HASH, 0, 0, 0);
    var version, prev, merkle, time, target, nonce;
    ok, pos', version := ReadU32(data, pos);
    if !ok { return; }
    ok, pos', prev := ReadHash(data, pos');
    if !ok { return; }
    ok, pos', merkle := ReadHash(data, pos');
    if !ok { return; }
    ok, pos', time := ReadU64(data, pos');
    if !ok { return; }
    ok, pos', target := ReadU32(data, pos');
    if !ok { return; }
    ok, pos', nonce := ReadU32(data, pos');
    if !ok { return; }
    h := BlockHeader(version, prev, merkle, time, target, nonce);
  }

  /** `item` stands for ParseTx, so that the loop below is checked without looking inside a transaction. */
  method ReadTx(data: seq<byte>, pos: nat, ghost item: seq<byte> -> Parse<Transaction>)
      returns (ok: bool, pos': nat, tx: Transaction)
    requires pos <= |data|
    requires forall bs {:trigger ParseTx(bs)} :: item(bs) == ParseTx(bs)
    ensures Moved(data, pos, item(data[pos..]), ok, pos')
    ensures ok ==> tx == item(data[pos..]).value
  {
    ok, pos', tx := DeserializeTransaction(data, pos);
  }

  method ReadTxs(data: seq<byte>, pos: nat, n: nat, ghost item: seq<byte> -> Parse<Transaction>)
      returns (ok: bool, pos': nat, txs: seq<Transaction>)
    requires pos <= |data|
    requires forall bs {:trigger ParseTx(bs)} :: item(bs) == ParseTx(bs)
    ensures Moved(data, pos, Repeat(item, data[pos..], n), ok, pos')
    ensures ok ==> txs == Repeat(item, data[pos..], n).value
  {
    pos', txs := pos, [];
    AfterNothing(Repeat(item, data[pos..], n));
    for i := 0 to n
      invariant pos <= pos' <= |data|
      invariant Repeat(item, data[pos..], n) == After(txs, Repeat(item, data[pos'..], n - i))
    {
      AfterStep(item, txs, data[pos'..], n - i);
      var tx;
      ok, pos', tx := ReadTx(data, pos', item);
      if !ok { return; }
      txs := txs + [tx];
    }
    ok := true;
  }

  method DeserializeBlock(data: seq<byte>) returns (ok: bool, b: Block)
    ensures ok == ParseBlock(data).Done?
    ensures ok ==> b == ParseBlock(data).value
  {
    b := Block(BlockHeader(1, ZERO_HASH, ZERO_HASH, 0, 0, 0), []);
    if |data| < 80 { return false, b; }
    assert data[0..] == data;
    var pos, header, nTx, txs;
    ok, pos, header := ReadHeader(data, 0);
    if !ok { return; }
    ok, pos, nTx := ReadVarInt(data, pos);
    if !ok { return; }
    ok, pos, txs := ReadTxs(data, pos, nTx, ParseTx);
    if !ok { return; }
    b := Block(header, txs);
  }
}
