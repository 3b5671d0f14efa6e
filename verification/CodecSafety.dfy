/** What the parsers guarantee on bytes nobody printed. */
module CodecSafety {
  import opened Bytes
  import opened Types
  import opened Codec

  const SIZE_LIMIT: nat := 0x1_0000_0000_0000_0000

  /**
   Reprinting what was read takes no more bytes than were consumed, and when it takes exactly as many,
   the consumed bytes were the printed ones: the only slack in the format is a longer length prefix.
   */
  ghost predicate Reprints(bs: seq<byte>, printed: seq<byte>, rest: seq<byte>) {
    && |printed| + |rest| <= |bs|
    && (|printed| + |rest| == |bs| ==> bs == printed + rest)
  }

  lemma Compose(bs: seq<byte>, p1: seq<byte>, mid: seq<byte>, p2: seq<byte>, rest: seq<byte>)
    requires Reprints(bs, p1, mid) && Reprints(mid, p2, rest)
    ensures Reprints(bs, p1 + p2, rest)
  {
    assert p1 + (p2 + rest) == (p1 + p2) + rest;
  }

  lemma VarIntReprints(bs: seq<byte>)
    requires ParseVarInt(bs).Done?
    ensures var p := ParseVarInt(bs);
            && |VarInt(p.value)| + |p.rest| <= |bs| && |p.rest| < |bs|
            && (p.value < COUNT_LIMIT || p.value >= SIZE_LIMIT - COUNT_LIMIT)
            && (p.value < COUNT_LIMIT ==> Reprints(bs, VarInt(p.value), p.rest))
  {
    var p := ParseVarInt(bs);
    if bs[0] == 0xfd {
      FromLEBound(bs[1..3]); Widths();
      LEFromLE(bs[1..3]);
      assert bs == [0xfd] + bs[1..3] + bs[3..];
    } else if bs[0] == 0xfe {
      FromLEBound(bs[1..5]); Widths();
      LEFromLE(bs[1..5]);
      assert bs == [0xfe] + bs[1..5] + bs[5..];
    }
  }

  lemma U32Reprints(bs: seq<byte>)
    requires ParseU32(bs).Done?
    ensures Reprints(bs, LE(ParseU32(bs).value, 4), ParseU32(bs).rest)
  {
    LEFromLE(bs[..4]);
    assert bs == bs[..4] + bs[4..];
  }

  lemma U64Reprints(bs: seq<byte>)
    requires ParseU64(bs).Done?
    ensures Reprints(bs, LE(ParseU64(bs).value, 8), ParseU64(bs).rest)
  {
    LEFromLE(bs[..8]);
    assert bs == bs[..8] + bs[8..];
  }

  lemma ScriptReprints(bs: seq<byte>)
    requires ParseScript(bs).Done?
    ensures var p := ParseScript(bs);
            |p.value| <= MAX_SCRIPT && |p.rest| < |bs| && Reprints(bs, LengthPrefixed(p.value), p.rest)
  {
    VarIntReprints(bs);
    var n := ParseVarInt(bs);
    var p := ParseScript(bs);
    assert n.rest == p.value + p.rest;
    Compose(bs, VarInt(n.value), n.rest, p.value, p.rest);
  }

  /** An input takes at least 38 bytes. */
  lemma InputReprints(bs: seq<byte>)
    requires ParseInput(bs).Done?
    ensures var p := ParseInput(bs);
            FitsInput(p.value) && 38 + |p.rest| <= |bs| && Reprints(bs, InputBytes(p.value), p.rest)
  {
    var h := ParseHash(bs);
    assert bs == h.value + h.rest;
    var i := ParseU32(h.rest);
    var s := ParseScript(i.rest);
    var k := ParseScript(s.rest);
    U32Reprints(h.rest);
    ScriptReprints(i.rest);
    ScriptReprints(s.rest);
    Compose(i.rest, LengthPrefixed(s.value), s.rest, LengthPrefixed(k.value), k.rest);
    Compose(h.rest, LE(i.value, 4), i.rest, LengthPrefixed(s.value) + LengthPrefixed(k.value), k.rest);
    Compose(bs, h.value, h.rest,
            LE(i.value, 4) + (LengthPrefixed(s.value) + LengthPrefixed(k.value)), k.rest);
  }

  /** An output takes at least 9 bytes. */
  lemma OutputReprints(bs: seq<byte>)
    requires ParseOutput(bs).Done?
    ensures var p := ParseOutput(bs);
            FitsOutput(p.value) && 9 + |p.rest| <= |bs| && Reprints(bs, OutputBytes(p.value), p.rest)
  {
    var a := ParseU64(bs);
    var s := ParseScript(a.rest);
    U64Reprints(bs);
    ScriptReprints(a.rest);
    Compose(bs, LE(a.value, 8), a.rest, LengthPrefixed(s.value), s.rest);
  }

  /** What is known of n items read from bs into `xs`, with `rest` left. */
  ghost predicate AllFit<T(!new)>(
      show: T -> seq<byte>, fits: T -> bool, least: nat, bs: seq<byte>, xs: seq<T>, rest: seq<byte>)
  {
    && (forall x :: x in xs ==> fits(x))
    && least * |xs| + |rest| <= |bs| && Reprints(bs, PrintAll(show, xs), rest)
  }

  lemma AllFitStep<T(!new)>(
      show: T -> seq<byte>, fits: T -> bool, least: nat,
      bs: seq<byte>, x: T, mid: seq<byte>, xs: seq<T>, rest: seq<byte>)
    requires fits(x) && least + |mid| <= |bs| && Reprints(bs, show(x), mid)
    requires AllFit(show, fits, least, mid, xs, rest)
    ensures AllFit(show, fits, least, bs, [x] + xs, rest)
  {
    Compose(bs, show(x), mid, PrintAll(show, xs), rest);
    assert ([x] + xs)[1..] == xs;
    assert least * (1 + |xs|) == least + least * |xs|;
  }

  /** Items that reprint one at a time, each taking at least `least` bytes, reprint in a row. */
  lemma {:induction false} AllReprint<T(!new)>(
      show: T -> seq<byte>, parse: seq<byte> -> Parse<T>, fits: T -> bool, least: nat, bs: seq<byte>, n: nat)
    requires forall s | |s| <= |bs| && parse(s).Done? ::
               && fits(parse(s).value) && least + |parse(s).rest| <= |s|
               && Reprints(s, show(parse(s).value), parse(s).rest)
    requires Repeat(parse, bs, n).Done?
    ensures AllFit(show, fits, least, bs, Repeat(parse, bs, n).value, Repeat(parse, bs, n).rest)
    decreases n
  {
    if n > 0 {
      var p := parse(bs);
      assert p.Done?;
      var tail := Repeat(parse, p.rest, n - 1);
      assert Repeat(parse, bs, n) == Done([p.value] + tail.value, tail.rest);
      AllReprint(show, parse, fits, least, p.rest, n - 1);
      AllFitStep(show, fits, least, bs, p.value, p.rest, tail.value, tail.rest);
    } else {
      assert [] + bs == bs;
    }
  }

  lemma InputsReprint(bs: seq<byte>, n: nat)
    requires Repeat(ParseInput, bs, n).Done?
    ensures var p := Repeat(ParseInput, bs, n);
            && (forall i :: i in p.value ==> FitsInput(i))
            && 38 * n + |p.rest| <= |bs| && Reprints(bs, PrintAll(InputBytes, p.value), p.rest)
  {
    forall s | |s| <= |bs| && ParseInput(s).Done?
      ensures var p := ParseInput(s);
              FitsInput(p.value) && 38 + |p.rest| <= |s| && Reprints(s, InputBytes(p.value), p.rest)
    {
      InputReprints(s);
    }
    AllReprint(InputBytes, ParseInput, FitsInput, 38, bs, n);
  }

  lemma OutputsReprint(bs: seq<byte>, n: nat)
    requires Repeat(ParseOutput, bs, n).Done?
    ensures var p := Repeat(ParseOutput, bs, n);
            && (forall o :: o in p.value ==> FitsOutput(o))
            && 9 * n + |p.rest| <= |bs| && Reprints(bs, PrintAll(OutputBytes, p.value), p.rest)
  {
    forall s | |s| <= |bs| && ParseOutput(s).Done?
      ensures var p := ParseOutput(s);
              FitsOutput(p.value) && 9 + |p.rest| <= |s| && Reprints(s, OutputBytes(p.value), p.rest)
    {
      OutputReprints(s);
    }
    AllReprint(OutputBytes, ParseOutput, FitsOutput, 9, bs, n);
  }

  /**
   Whatever the transaction parser accepts is within the format's limits, however large a count the
   bytes announced, and reprints into the bytes consumed or fewer.
   */
  lemma TxReprints(bs: seq<byte>)
    requires |bs| < SIZE_LIMIT
    requires ParseTx(bs).Done?
    ensures var p := ParseTx(bs);
            FitsTx(p.value) && 10 + |p.rest| <= |bs| && Reprints(bs, TxBytes(p.value), p.rest)
  {
    var v := ParseU32(bs);
    var nIn := ParseVarInt(v.rest);
    var ins := Repeat(ParseInput, nIn.rest, nIn.value);
    var nOut := ParseVarInt(ins.rest);
    var outs := Repeat(ParseOutput, nOut.rest, nOut.value);
    var lt := ParseU32(outs.rest);
    U32Reprints(bs);
    VarIntReprints(v.rest);
    InputsReprint(nIn.rest, nIn.value);
    VarIntReprints(ins.rest);
    OutputsReprint(nOut.rest, nOut.value);
    U32Reprints(outs.rest);
    var p5 := PrintAll(OutputBytes, outs.value) + LE(lt.value, 4);
    Compose(nOut.rest, PrintAll(OutputBytes, outs.value), outs.rest, LE(lt.value, 4), lt.rest);
    var p4 := VarInt(nOut.value) + p5;
    Compose(ins.rest, VarInt(nOut.value), nOut.rest, p5, lt.rest);
    var p3 := PrintAll(InputBytes, ins.value) + p4;
    Compose(nIn.rest, PrintAll(InputBytes, ins.value), ins.rest, p4, lt.rest);
    var p2 := VarInt(nIn.value) + p3;
    Compose(v.rest, VarInt(nIn.value), nIn.rest, p3, lt.rest);
    Compose(bs, LE(v.value, 4), v.rest, p2, lt.rest);
  }

  /** Reading, printing and reading again gives the same transaction, minimal prefixes or not. */
  lemma ReparseAccepted(bs: seq<byte>, suffix: seq<byte>)
    requires |bs| < SIZE_LIMIT
    requires ParseTx(bs).Done?
    ensures ParseTx(TxBytes(ParseTx(bs).value) + suffix) == Done(ParseTx(bs).value, suffix)
  {
    TxReprints(bs);
    TxRoundTrip(ParseTx(bs).value, suffix);
  }

  // ---------- other encodings ----------

  /** The bytes of a transaction with its input count in the three-byte form. */
  function LongForm(tx: Transaction): seq<byte> {
    PrintedAs(tx, [0xfd] + LE(|tx.inputs|, 2), PrintAll(InputBytes, tx.inputs))
  }

  lemma ParseLongCount(n: nat, rest: seq<byte>)
    requires n <= 0xffff
    ensures ParseVarInt(([0xfd] + LE(n, 2)) + rest) == Done(n, rest)
  {
    var bs := ([0xfd] + LE(n, 2)) + rest;
    assert bs[1..3] == LE(n, 2) && bs[3..] == rest;
    Widths();
    FromLELE(n, 2);
  }

  /** Every transaction with few inputs has a second encoding, two bytes longer. */
  lemma LongFormAccepted(tx: Transaction, rest: seq<byte>)
    requires FitsTx(tx) && |tx.inputs| < 0xfd
    ensures ParseTx(LongForm(tx) + rest) == Done(tx, rest)
    ensures |LongForm(tx)| == |TxBytes(tx)| + 2
  {
    var ins := PrintAll(InputBytes, tx.inputs);
    ParseLongCount(|tx.inputs|, ins + (AfterInputs(tx) + rest));
    ParsePrintedInputs(tx.inputs, AfterInputs(tx) + rest);
    PrintedAsParses(tx, [0xfd] + LE(|tx.inputs|, 2), ins, rest);
    assert |VarInt(|tx.inputs|)| == 1;
  }

  /** A byte string with its length in the five-byte form. */
  function LongPrefixed(s: seq<byte>): seq<byte> { [0xfe] + (LE(|s|, 4) + s) }

  /** An input whose signature length takes five bytes. */
  function LongInputBytes(i: TxInput): seq<byte> {
    i.prevTxHash + (LE(i.outputIndex, 4) + (LongPrefixed(i.signature) + LengthPrefixed(i.pubkey)))
  }

  lemma ParseLongScript(s: seq<byte>, rest: seq<byte>)
    requires |s| <= MAX_SCRIPT
    ensures ParseScript(LongPrefixed(s) + rest) == Done(s, rest)
  {
    var bs := LongPrefixed(s) + rest;
    assert bs[1..5] == LE(|s|, 4) && bs[5..] == s + rest;
    Widths();
    FromLELE(|s|, 4);
    TakePrinted(s, rest);
  }

  lemma ParseLongInput(i: TxInput, rest: seq<byte>)
    requires FitsInput(i)
    ensures ParseInput(LongInputBytes(i) + rest) == Done(i, rest)
  {
    var r3 := LengthPrefixed(i.pubkey) + rest;
    var r2 := LongPrefixed(i.signature) + r3;
    var r1 := LE(i.outputIndex, 4) + r2;
    assert LongInputBytes(i) + rest == i.prevTxHash + r1;
    TakePrinted(i.prevTxHash, r1);
    ParsePrintedU32(i.outputIndex, r2);
    ParseLongScript(i.signature, r3);
    ParsePrintedScript(i.pubkey, rest);
  }

  lemma ParseLongInputs(ins: seq<TxInput>, rest: seq<byte>)
    requires forall i :: i in ins ==> FitsInput(i)
    ensures Repeat(ParseInput, PrintAll(LongInputBytes, ins) + rest, |ins|) == Done(ins, rest)
  {
    forall i, r | i in ins
      ensures ParseInput(LongInputBytes(i) + r) == Done(i, r)
    {
      ParseLongInput(i, r);
    }
    ParsePrintedAll(LongInputBytes, ParseInput, ins, rest);
  }

  lemma {:induction false} LongInputsLonger(ins: seq<TxInput>)
    requires forall i :: i in ins ==> FitsInput(i)
    ensures |PrintAll(LongInputBytes, ins)| >= |PrintAll(InputBytes, ins)| + 2 * |ins|
  {
    if ins != [] {
      LongInputsLonger(ins[1..]);
      assert FitsInput(ins[0]);
      assert |LongInputBytes(ins[0])| >= |InputBytes(ins[0])| + 2;
    }
  }

  /** Another encoding of any transaction: with long signature prefixes, or without inputs with a long count. */
  function OtherForm(tx: Transaction): seq<byte> {
    if tx.inputs == [] then LongForm(tx)
    else PrintedAs(tx, VarInt(|tx.inputs|), PrintAll(LongInputBytes, tx.inputs))
  }

  /** No transaction within the limits has just one accepted encoding: the parser inverts no printer. */
  lemma NoSoleEncoding(tx: Transaction, rest: seq<byte>)
    requires FitsTx(tx)
    ensures ParseTx(OtherForm(tx) + rest) == Done(tx, rest) && |OtherForm(tx)| > |TxBytes(tx)|
  {
    if tx.inputs == [] {
      LongFormAccepted(tx, rest);
    } else {
      var ins := PrintAll(LongInputBytes, tx.inputs);
      ParsePrintedVarInt(|tx.inputs|, ins + (AfterInputs(tx) + rest));
      ParseLongInputs(tx.inputs, AfterInputs(tx) + rest);
      PrintedAsParses(tx, VarInt(|tx.inputs|), ins, rest);
      LongInputsLonger(tx.inputs);
    }
  }

  lemma TxsReprint(bs: seq<byte>, n: nat)
    requires |bs| < SIZE_LIMIT
    requires Repeat(ParseTx, bs, n).Done?
    ensures var p := Repeat(ParseTx, bs, n);
            && (forall tx :: tx in p.value ==> FitsTx(tx))
            && 10 * n + |p.rest| <= |bs| && Reprints(bs, PrintAll(TxBytes, p.value), p.rest)
  {
    forall s | |s| <= |bs| && ParseTx(s).Done?
      ensures var p := ParseTx(s);
              FitsTx(p.value) && 10 + |p.rest| <= |s| && Reprints(s, TxBytes(p.value), p.rest)
    {
      TxReprints(s);
    }
    AllReprint(TxBytes, ParseTx, FitsTx, 10, bs, n);
  }

  lemma ParsedBlockFits(bs: seq<byte>)
    requires |bs| < SIZE_LIMIT
    requires ParseBlock(bs).Done?
    ensures FitsBlock(ParseBlock(bs).value)
  {
    var h := ParseHeader(bs);
    var n := ParseVarInt(h.rest);
    VarIntReprints(h.rest);
    TxsReprint(n.rest, n.value);
  }

  /** A block can be read back from its own bytes exactly when it is within the parser's limits. */
  lemma StoredBlockReadableIff(b: Block)
    requires |BlockBytes(b)| < SIZE_LIMIT
    ensures (exists rest :: ParseBlock(BlockBytes(b)) == Done(b, rest)) <==> FitsBlock(b)
  {
    if FitsBlock(b) {
      BlockRoundTrip(b, []);
      assert BlockBytes(b) + [] == BlockBytes(b);
    }
    if ParseBlock(BlockBytes(b)).Done? {
      ParsedBlockFits(BlockBytes(b));
    }
  }
}
