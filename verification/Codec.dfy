/**
 The wire format of transactions and blocks: the printers, the cursor-based parsers and what the two
 promise each other. The specification is a pair of function families over byte sequences; the methods
 below them carry the loops of the program and are proved equal to it.
 */
module Codec {
  import opened Bytes
  import opened Types

  const MAX_SCRIPT: nat := 10000

  // ---------- printing ----------

  /** Length prefix in three forms; the five-byte form keeps only the low 32 bits of the length. */
  function VarInt(n: nat): seq<byte> {
    if n < 0xfd then [n] else if n <= 0xffff then [0xfd] + LE(n, 2) else [0xfe] + LE(n, 4)
  }

  function LengthPrefixed(bs: seq<byte>): seq<byte> { VarInt(|bs|) + bs }

  function InputBytes(i: TxInput): seq<byte> {
    i.prevTxHash + (LE(i.outputIndex, 4) + (LengthPrefixed(i.signature) + LengthPrefixed(i.pubkey)))
  }

  function OutputBytes(o: TxOutput): seq<byte> { LE(o.amount, 8) + LengthPrefixed(o.scriptPubkey) }

  /** The items one after another, each printed by `item`. */
  function PrintAll<T>(item: T -> seq<byte>, xs: seq<T>): seq<byte> {
    if xs == [] then [] else item(xs[0]) + PrintAll(item, xs[1..])
  }

  lemma NextItem<T>(show: T -> seq<byte>, xs: seq<T>, i: nat, done: seq<byte>)
    requires i < |xs|
    ensures done + PrintAll(show, xs[i..]) == (done + show(xs[i])) + PrintAll(show, xs[i + 1..])
  {
    assert xs[i..][1..] == xs[i + 1..];
  }

  /** What follows the inputs of a printed transaction. */
  function AfterInputs(tx: Transaction): seq<byte> {
    VarInt(|tx.outputs|) + (PrintAll(OutputBytes, tx.outputs) + LE(tx.lockTime, 4))
  }

  /** A transaction printed around some encoding of its input count and of its inputs. */
  function PrintedAs(tx: Transaction, count: seq<byte>, ins: seq<byte>): seq<byte> {
    LE(tx.version, 4) + (count + (ins + AfterInputs(tx)))
  }

  function TxBytes(tx: Transaction): seq<byte> { PrintedAs(tx, VarInt(|tx.inputs|), PrintAll(InputBytes, tx.inputs)) }

  /** The 84 header bytes that are stored; the proof-of-work header is a different, 80-byte layout. */
  function StoredHeader(h: BlockHeader): (bs: seq<byte>)
    ensures |bs| == 84
  {
    LE(h.version, 4) + (h.previousHash + (h.merkleRoot + (LE(h.timestamp, 8)
    + (LE(h.difficultyTarget, 4) + LE(h.nonce, 4)))))
  }

  function BlockBytes(b: Block): seq<byte> {
    StoredHeader(b.header) + (VarInt(|b.transactions|) + PrintAll(TxBytes, b.transactions))
  }

  // ---------- parsing ----------

  /** Outcome of a parser: failure, or a value with the bytes it left unread. */
  datatype Parse<+T> = Fail | Done(value: T, rest: seq<byte>)
  {
    predicate IsFailure() { Fail? }

    function PropagateFailure<U>(): Parse<U>
      requires Fail?
    {
      Fail
    }

    function Extract(): (T, seq<byte>)
      requires Done?
    {
      (value, rest)
    }
  }

  function Take(bs: seq<byte>, n: nat): (p: Parse<seq<byte>>)
    ensures p.Done? ==> |p.value| == n
  {
    if |bs| < n then Fail else Done(bs[..n], bs[n..])
  }

  function ParseU32(bs: seq<byte>): Parse<u32> {
    var (v, rest) :- Take(bs, 4);
    FromLEBound(v); Widths();
    Done(FromLE(v), rest)
  }

  function ParseU64(bs: seq<byte>): Parse<u64> {
    var (v, rest) :- Take(bs, 8);
    FromLEBound(v); Widths();
    Done(FromLE(v), rest)
  }

  function ParseHash(bs: seq<byte>): Parse<Hash> {
    var (v, rest) :- Take(bs, 32);
    Done(v, rest)
  }

  /** The reader ORs in `data[pos+4] << 24` as an `int`: a set top bit is sign-extended to 64 bits. */
  function SignExtend(v: nat): nat
    requires v < 0x1_0000_0000
  {
    if v < 0x8000_0000 then v else v + 0xffff_ffff_0000_0000
  }

  /** Any of the three forms is read whatever the number: a short number may use a long form. */
  function ParseVarInt(bs: seq<byte>): Parse<nat> {
    if bs == [] then Fail
    else if bs[0] < 0xfd then Done(bs[0], bs[1..])
    else if bs[0] == 0xfd && 3 <= |bs| then Done(FromLE(bs[1..3]), bs[3..])
    else if bs[0] == 0xfe && 5 <= |bs| then
      FromLEBound(bs[1..5]); Widths();
      Done(SignExtend(FromLE(bs[1..5])), bs[5..])
    else Fail
  }

  function ParseScript(bs: seq<byte>): Parse<seq<byte>> {
    var (n, rest) :- ParseVarInt(bs);
    if n > MAX_SCRIPT then Fail else Take(rest, n)
  }

  function ParseInput(bs: seq<byte>): Parse<TxInput> {
    var (hash, bs1) :- ParseHash(bs);
    var (index, bs2) :- ParseU32(bs1);
    var (sig, bs3) :- ParseScript(bs2);
    var (pk, bs4) :- ParseScript(bs3);
    Done(TxInput(hash, index, sig, pk), bs4)
  }

  function ParseOutput(bs: seq<byte>): Parse<TxOutput> {
    var (amount, bs1) :- ParseU64(bs);
    var (script, bs2) :- ParseScript(bs1);
    Done(TxOutput(amount, script), bs2)
  }

  /** n items in a row, each read by `item` from where the previous one stopped. */
  function Repeat<T>(item: seq<byte> -> Parse<T>, bs: seq<byte>, n: nat): (p: Parse<seq<T>>)
    ensures p.Done? ==> |p.value| == n
    decreases n
  {
    if n == 0 then Done([], bs) else
    var (x, bs1) :- item(bs);
    var (xs, bs2) :- Repeat(item, bs1, n - 1);
    Done([x] + xs, bs2)
  }

  function ParseTx(bs: seq<byte>): Parse<Transaction> {
    var (version, bs1) :- ParseU32(bs);
    var (nIn, bs2) :- ParseVarInt(bs1);
    var (ins, bs3) :- Repeat(ParseInput, bs2, nIn);
    var (nOut, bs4) :- ParseVarInt(bs3);
    var (outs, bs5) :- Repeat(ParseOutput, bs4, nOut);
    var (lockTime, bs6) :- ParseU32(bs5);
    Done(Transaction(version, ins, outs, lockTime), bs6)
  }

  function ParseHeader(bs: seq<byte>): Parse<BlockHeader> {
    var (version, bs1) :- ParseU32(bs);
    var (prev, bs2) :- ParseHash(bs1);
    var (merkle, bs3) :- ParseHash(bs2);
    var (time, bs4) :- ParseU64(bs3);
    var (target, bs5) :- ParseU32(bs4);
    var (nonce, bs6) :- ParseU32(bs5);
    Done(BlockHeader(version, prev, merkle, time, target, nonce), bs6)
  }

  function ParseBlock(bs: seq<byte>): Parse<Block> {
    if |bs| < 80 then Fail else
    var (header, bs1) :- ParseHeader(bs);
    var (nTx, bs2) :- ParseVarInt(bs1);
    var (txs, bs3) :- Repeat(ParseTx, bs2, nTx);
    Done(Block(header, txs), bs3)
  }

  // ---------- what fits the format ----------

  const COUNT_LIMIT: nat := 0x8000_0000

  predicate FitsInput(i: TxInput) { |i.signature| <= MAX_SCRIPT && |i.pubkey| <= MAX_SCRIPT }

  predicate FitsOutput(o: TxOutput) { |o.scriptPubkey| <= MAX_SCRIPT }

  predicate FitsTx(tx: Transaction) {
    && |tx.inputs| < COUNT_LIMIT && |tx.outputs| < COUNT_LIMIT
    && (forall i :: i in tx.inputs ==> FitsInput(i))
    && (forall o :: o in tx.outputs ==> FitsOutput(o))
  }

  predicate FitsBlock(b: Block) {
    && |b.transactions| < COUNT_LIMIT
    && (forall tx :: tx in b.transactions ==> FitsTx(tx))
  }

  // ---------- parsing what was printed ----------

  lemma TakePrinted(v: seq<byte>, rest: seq<byte>)
    ensures Take(v + rest, |v|) == Done(v, rest)
  {
    assert (v + rest)[..|v|] == v;
    assert (v + rest)[|v|..] == rest;
  }

  lemma ParsePrintedU32(v: u32, rest: seq<byte>)
    ensures ParseU32(LE(v, 4) + rest) == Done(v, rest)
  {
    TakePrinted(LE(v, 4), rest);
    Widths();
    FromLELE(v, 4);
  }

  lemma ParsePrintedU64(v: u64, rest: seq<byte>)
    ensures ParseU64(LE(v, 8) + rest) == Done(v, rest)
  {
    TakePrinted(LE(v, 8), rest);
    Widths();
    FromLELE(v, 8);
  }

  lemma ParsePrintedVarInt(n: nat, rest: seq<byte>)
    requires n < COUNT_LIMIT
    ensures ParseVarInt(VarInt(n) + rest) == Done(n, rest)
  {
    var bs := VarInt(n) + rest;
    Widths();
    if n < 0xfd {
      assert bs[1..] == rest;
    } else if n <= 0xffff {
      assert bs[1..3] == LE(n, 2) && bs[3..] == rest;
      FromLELE(n, 2);
    } else {
      assert bs[1..5] == LE(n, 4) && bs[5..] == rest;
      FromLELE(n, 4);
    }
  }

  lemma ParsePrintedScript(s: seq<byte>, rest: seq<byte>)
    requires |s| <= MAX_SCRIPT
    ensures ParseScript(LengthPrefixed(s) + rest) == Done(s, rest)
  {
    assert LengthPrefixed(s) + rest == VarInt(|s|) + (s + rest);
    ParsePrintedVarInt(|s|, s + rest);
    TakePrinted(s, rest);
  }

  lemma ParsePrintedInput(i: TxInput, rest: seq<byte>)
    requires FitsInput(i)
    ensures ParseInput(InputBytes(i) + rest) == Done(i, rest)
  {
    var r3 := LengthPrefixed(i.pubkey) + rest;
    var r2 := LengthPrefixed(i.signature) + r3;
    var r1 := LE(i.outputIndex, 4) + r2;
    assert InputBytes(i) + rest == i.prevTxHash + r1;
    TakePrinted(i.prevTxHash, r1);
    ParsePrintedU32(i.outputIndex, r2);
    ParsePrintedScript(i.signature, r3);
    ParsePrintedScript(i.pubkey, rest);
  }

  lemma ParsePrintedOutput(o: TxOutput, rest: seq<byte>)
    requires FitsOutput(o)
    ensures ParseOutput(OutputBytes(o) + rest) == Done(o, rest)
  {
    var r1 := LengthPrefixed(o.scriptPubkey) + rest;
    assert OutputBytes(o) + rest == LE(o.amount, 8) + r1;
    ParsePrintedU64(o.amount, r1);
    ParsePrintedScript(o.scriptPubkey, rest);
  }

  /** Items that survive one at a time survive in a row. */
  lemma {:induction false} ParsePrintedAll<T(!new)>(
      show: T -> seq<byte>, parse: seq<byte> -> Parse<T>, xs: seq<T>, rest: seq<byte>)
    requires forall x, r :: x in xs ==> parse(show(x) + r) == Done(x, r)
    ensures Repeat(parse, PrintAll(show, xs) + rest, |xs|) == Done(xs, rest)
  {
    if xs == [] {
      assert PrintAll(show, xs) + rest == rest;
    } else {
      var r := PrintAll(show, xs[1..]) + rest;
      assert PrintAll(show, xs) + rest == show(xs[0]) + r;
      assert parse(show(xs[0]) + r) == Done(xs[0], r);
      ParsePrintedAll(show, parse, xs[1..], rest);
      assert [xs[0]] + xs[1..] == xs;
    }
  }

  lemma ParsePrintedInputs(ins: seq<TxInput>, rest: seq<byte>)
    requires forall i :: i in ins ==> FitsInput(i)
    ensures Repeat(ParseInput, PrintAll(InputBytes, ins) + rest, |ins|) == Done(ins, rest)
  {
    forall i, r | i in ins
      ensures ParseInput(InputBytes(i) + r) == Done(i, r)
    {
      ParsePrintedInput(i, r);
    }
    ParsePrintedAll(InputBytes, ParseInput, ins, rest);
  }

  lemma ParsePrintedOutputs(outs: seq<TxOutput>, rest: seq<byte>)
    requires forall o :: o in outs ==> FitsOutput(o)
    ensures Repeat(ParseOutput, PrintAll(OutputBytes, outs) + rest, |outs|) == Done(outs, rest)
  {
    forall o, r | o in outs
      ensures ParseOutput(OutputBytes(o) + r) == Done(o, r)
    {
      ParsePrintedOutput(o, r);
    }
    ParsePrintedAll(OutputBytes, ParseOutput, outs, rest);
  }

  /** Any encoding of the input count and of the inputs will do that reads as what it stands for. */
  lemma PrintedAsParses(tx: Transaction, count: seq<byte>, ins: seq<byte>, rest: seq<byte>)
    requires FitsTx(tx)
    requires ParseVarInt(count + (ins + (AfterInputs(tx) + rest)))
          == Done(|tx.inputs|, ins + (AfterInputs(tx) + rest))
    requires Repeat(ParseInput, ins + (AfterInputs(tx) + rest), |tx.inputs|)
          == Done(tx.inputs, AfterInputs(tx) + rest)
    ensures ParseTx(PrintedAs(tx, count, ins) + rest) == Done(tx, rest)
  {
    var r5 := LE(tx.lockTime, 4) + rest;
    var r4 := PrintAll(OutputBytes, tx.outputs) + r5;
    PrintedSplits(tx, count, ins, rest);
    ParsePrintedU32(tx.version, count + (ins + (AfterInputs(tx) + rest)));
    ParsePrintedVarInt(|tx.outputs|, r4);
    ParsePrintedOutputs(tx.outputs, r5);
    ParsePrintedU32(tx.lockTime, rest);
  }

  lemma PrintedSplits(tx: Transaction, count: seq<byte>, ins: seq<byte>, rest: seq<byte>)
    ensures PrintedAs(tx, count, ins) + rest
         == LE(tx.version, 4) + (count + (ins + (AfterInputs(tx) + rest)))
    ensures AfterInputs(tx) + rest
         == VarInt(|tx.outputs|) + (PrintAll(OutputBytes, tx.outputs) + (LE(tx.lockTime, 4) + rest))
  {
    assert (count + (ins + AfterInputs(tx))) + rest == count + (ins + (AfterInputs(tx) + rest));
  }

  /** A transaction survives the wire, and its parser stops exactly at its last byte. */
  lemma TxRoundTrip(tx: Transaction, rest: seq<byte>)
    requires FitsTx(tx)
    ensures ParseTx(TxBytes(tx) + rest) == Done(tx, rest)
  {
    var ins := PrintAll(InputBytes, tx.inputs);
    ParsePrintedVarInt(|tx.inputs|, ins + (AfterInputs(tx) + rest));
    ParsePrintedInputs(tx.inputs, AfterInputs(tx) + rest);
    PrintedAsParses(tx, VarInt(|tx.inputs|), ins, rest);
  }

  lemma ParsePrintedTxs(txs: seq<Transaction>, rest: seq<byte>)
    requires forall tx :: tx in txs ==> FitsTx(tx)
    ensures Repeat(ParseTx, PrintAll(TxBytes, txs) + rest, |txs|) == Done(txs, rest)
  {
    forall tx, r | tx in txs
      ensures ParseTx(TxBytes(tx) + r) == Done(tx, r)
    {
      TxRoundTrip(tx, r);
    }
    ParsePrintedAll(TxBytes, ParseTx, txs, rest);
  }

  lemma HeaderRoundTrip(h: BlockHeader, rest: seq<byte>)
    ensures ParseHeader(StoredHeader(h) + rest) == Done(h, rest)
  {
    var r5 := LE(h.nonce, 4) + rest;
    var r4 := LE(h.difficultyTarget, 4) + r5;
    var r3 := LE(h.timestamp, 8) + r4;
    var r2 := h.merkleRoot + r3;
    var r1 := h.previousHash + r2;
    assert StoredHeader(h) + rest == LE(h.version, 4) + r1;
    ParsePrintedU32(h.version, r1);
    TakePrinted(h.previousHash, r2);
    TakePrinted(h.merkleRoot, r3);
    ParsePrintedU64(h.timestamp, r4);
    ParsePrintedU32(h.difficultyTarget, r5);
    ParsePrintedU32(h.nonce, rest);
  }

  /** Every block within the format's limits survives storage, whatever bytes follow it. */
  lemma BlockRoundTrip(b: Block, rest: seq<byte>)
    requires FitsBlock(b)
    ensures ParseBlock(BlockBytes(b) + rest) == Done(b, rest)
  {
    var r2 := PrintAll(TxBytes, b.transactions) + rest;
    var r1 := VarInt(|b.transactions|) + r2;
    assert BlockBytes(b) + rest == StoredHeader(b.header) + r1;
    HeaderRoundTrip(b.header, r1);
    ParsePrintedVarInt(|b.transactions|, r2);
    ParsePrintedTxs(b.transactions, rest);
  }
}
