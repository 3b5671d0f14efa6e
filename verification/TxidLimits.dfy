/** Exactly how many inputs and outputs, and how long scripts, a transaction id tells apart. */
module TxidLimits {
  import opened Bytes
  import opened Types
  import opened Codec
  import opened Txid

  ghost predicate Within(c: Core, ins: nat, outs: nat, script: nat) {
    && |c.spends| <= ins && |c.outputs| <= outs
    && forall o :: o in c.outputs ==> |o.scriptPubkey| <= script
  }

  /** Two payments whose ids hash the same bytes. */
  ghost predicate Ambiguous(a: Core, b: Core) { a != b && CoreBytes(a) == CoreBytes(b) }

  ghost predicate AmbiguousWithin(ins: nat, outs: nat, script: nat) {
    exists a, b :: Within(a, ins, outs, script) && Within(b, ins, outs, script) && Ambiguous(a, b)
  }

  /**
   Limits that let two outputs trade scripts whose lengths have one low byte, or outputs take the 9216
   bytes of 256 inputs.
   */
  predicate TooWide(ins: nat, outs: nat, script: nat) {
    (outs >= 2 && script >= 256) || (ins >= 256 && outs * (9 + script) >= 36 * 256)
  }

  // ---------- lengths ----------

  lemma {:induction false} OutputsLength(xs: seq<TxOutput>, script: nat)
    requires forall o :: o in xs ==> |o.scriptPubkey| <= script
    ensures |PrintAll(ShortOutputBytes, xs)| <= |xs| * (9 + script)
  {
    if xs != [] {
      OutputsLength(xs[1..], script);
      OneLess(|xs|, 9 + script);
      assert |ShortOutputBytes(xs[0])| == 9 + |xs[0].scriptPubkey|;
    }
  }

  lemma OneLess(n: nat, x: nat)
    requires n > 0
    ensures n * x == (n - 1) * x + x
  {
  }

  lemma OutputsBounded(c: Core, ins: nat, outs: nat, script: nat)
    requires Within(c, ins, outs, script)
    ensures |PrintAll(ShortOutputBytes, c.outputs)| <= outs * (9 + script)
  {
    OutputsLength(c.outputs, script);
    ProductGrows(|c.outputs|, outs, 9 + script);
  }

  /** Unequal input counts differ by 256 at least, so the side with fewer has outputs for the difference. */
  lemma FewerInputsMoreOutputs(a: Core, b: Core)
    requires CoreBytes(a) == CoreBytes(b) && |a.spends| < |b.spends|
    ensures |PrintAll(ShortOutputBytes, a.outputs)| >= 36 * 256 && |b.spends| >= 256
  {
    CoreBytesSplit(a, b);
    SpendsLength(a.spends);
    SpendsLength(b.spends);
    CountsFarApart(|a.spends|, |b.spends|);
  }

  lemma CountsFarApart(n: nat, m: nat)
    requires n < m && n % 256 == m % 256
    ensures m >= n + 256
  {
  }

  // ---------- narrow limits ----------

  /** With at most one output on each side the total length tells its script's length. */
  lemma LoneOutputSplits(xs: seq<TxOutput>, r: seq<byte>, ys: seq<TxOutput>, s: seq<byte>)
    requires |xs| <= 1 && |ys| <= 1 && |xs| == |ys| && |r| == |s|
    requires PrintAll(ShortOutputBytes, xs) + r == PrintAll(ShortOutputBytes, ys) + s
    ensures xs == ys && r == s
  {
    Split(PrintAll(ShortOutputBytes, xs), r, PrintAll(ShortOutputBytes, ys), s);
    if xs != [] {
      var x, y := xs[0], ys[0];
      assert xs == [x] && ys == [y];
      OneItem(ShortOutputBytes, x);
      OneItem(ShortOutputBytes, y);
      LoneOutput(x, y);
    }
  }

  lemma LoneOutput(x: TxOutput, y: TxOutput)
    requires ShortOutputBytes(x) == ShortOutputBytes(y)
    ensures x == y
  {
    var n := [|x.scriptPubkey| % 256];
    Split(LE(x.amount, 8), n + x.scriptPubkey, LE(y.amount, 8), [|y.scriptPubkey| % 256] + y.scriptPubkey);
    Split(n, x.scriptPubkey, [|y.scriptPubkey| % 256], y.scriptPubkey);
    Widths();
    LEInjective(x.amount, y.amount, 8);
  }

  lemma OneItem<T>(show: T -> seq<byte>, x: T)
    ensures PrintAll(show, [x]) == show(x)
  {
    assert [x][1..] == [];
    assert show(x) + [] == show(x);
  }

  lemma OutputHalvesSplit(a: Core, b: Core)
    requires OutputHalf(a) == OutputHalf(b)
    requires (ShortScripts(a.outputs) && ShortScripts(b.outputs)) || (|a.outputs| <= 1 && |b.outputs| <= 1)
    ensures a.outputs == b.outputs && a.lockTime == b.lockTime
  {
    var x := PrintAll(ShortOutputBytes, a.outputs) + LE(a.lockTime, 4);
    var y := PrintAll(ShortOutputBytes, b.outputs) + LE(b.lockTime, 4);
    Split([|a.outputs| % 256], x, [|b.outputs| % 256], y);
    assert [|a.outputs| % 256][0] == [|b.outputs| % 256][0];
    if ShortScripts(a.outputs) && ShortScripts(b.outputs) {
      OutputsSplit(a.outputs, LE(a.lockTime, 4), b.outputs, LE(b.lockTime, 4));
    } else {
      LoneOutputSplits(a.outputs, LE(a.lockTime, 4), b.outputs, LE(b.lockTime, 4));
    }
    Widths();
    LEInjective(a.lockTime, b.lockTime, 4);
  }

  lemma NarrowLimitsSuffice(a: Core, b: Core, ins: nat, outs: nat, script: nat)
    requires Within(a, ins, outs, script) && Within(b, ins, outs, script) && !TooWide(ins, outs, script)
    requires CoreBytes(a) == CoreBytes(b)
    ensures a == b
  {
    OutputsBounded(a, ins, outs, script);
    OutputsBounded(b, ins, outs, script);
    CoreBytesSplit(a, b);
    if |a.spends| < |b.spends| {
      FewerInputsMoreOutputs(a, b);
      assert false;
    } else if |b.spends| < |a.spends| {
      FewerInputsMoreOutputs(b, a);
      assert false;
    } else {
      SpendsSplit(a.spends, OutputHalf(a), b.spends, OutputHalf(b));
      OutputHalvesSplit(a, b);
    }
  }

  // ---------- wide scripts ----------

  lemma ZeroOutputBytes(n: nat)
    requires n % 256 == 0
    ensures ShortOutputBytes(TxOutput(0, Zeros(n))) == Zeros(9 + n)
  {
    ZeroBytes(8);
  }

  lemma TwoItems<T>(show: T -> seq<byte>, x: T, y: T)
    ensures PrintAll(show, [x, y]) == show(x) + show(y)
  {
    assert [x, y][1..] == [y];
    OneItem(show, y);
  }

  lemma ZerosTrade(n: nat, m: nat)
    ensures Zeros(n) + Zeros(m) == Zeros(m) + Zeros(n)
  {
  }

  /** Two payments whose long and short scripts trade places hash the same bytes. */
  lemma SwappedScriptsShareId(n: nat)
    requires n % 256 == 0 && n > 0
    ensures Ambiguous(Core(1, [], [TxOutput(0, Zeros(n)), TxOutput(0, [])], 0),
                      Core(1, [], [TxOutput(0, []), TxOutput(0, Zeros(n))], 0))
  {
    var long, short := TxOutput(0, Zeros(n)), TxOutput(0, []);
    ZeroOutputBytes(n);
    ZeroOutputBytes(0);
    assert Zeros(0) == [];
    TwoItems(ShortOutputBytes, long, short);
    TwoItems(ShortOutputBytes, short, long);
    ZerosTrade(9 + n, 9);
    assert [long, short][0] != [short, long][0];
  }

  // ---------- many inputs ----------

  /** The spends that a run of bytes spells, 36 bytes each. */
  function Spelled(bs: seq<byte>): (ops: seq<OutPoint>)
    requires |bs| % 36 == 0
    ensures 36 * |ops| == |bs|
  {
    if bs == [] then [] else
    FourBytes(bs[32..36]);
    [OutPoint(bs[..32], FromLE(bs[32..36]))] + Spelled(bs[36..])
  }

  lemma FourBytes(bs: seq<byte>)
    requires |bs| == 4
    ensures FromLE(bs) < 0x1_0000_0000
  {
    FromLEBound(bs);
    Widths();
  }

  lemma {:induction false} SpelledPrints(bs: seq<byte>)
    requires |bs| % 36 == 0
    ensures PrintAll(OutPointBytes, Spelled(bs)) == bs
  {
    if bs != [] {
      SpelledPrints(bs[36..]);
      LEFromLE(bs[32..36]);
      assert OutPointBytes(Spelled(bs)[0]) == bs[..36];
      assert Spelled(bs)[1..] == Spelled(bs[36..]);
    }
  }

  /**
   Outputs that end in a zero byte, and the inputs spelled by their count and the rest of their bytes,
   share an id when 256 divides the number of those inputs.
   */
  lemma OutputsAsInputs(a: Core, bytes: seq<byte>)
    requires |bytes| % 36 == 0 && bytes != [] && |Spelled(bytes)| % 256 == 0
    requires a.spends == [] && [|a.outputs| % 256] + PrintAll(ShortOutputBytes, a.outputs) == bytes + [0]
    ensures Ambiguous(a, a.(spends := Spelled(bytes), outputs := []))
  {
    SpelledPrints(bytes);
    SameHalves(a, a.(spends := Spelled(bytes), outputs := []), bytes);
  }

  lemma WithoutLast(front: seq<byte>, bs: seq<byte>) returns (most: seq<byte>)
    requires |front| == 1 && EndsInZero(bs)
    ensures |most| == |bs| && front + bs == most + [0]
  {
    most := front + bs[..|bs| - 1];
    assert bs == bs[..|bs| - 1] + [0];
  }

  lemma SameHalves(a: Core, b: Core, bytes: seq<byte>)
    requires a.version == b.version && a.lockTime == b.lockTime && |b.spends| % 256 == 0
    requires a.spends == [] && b.outputs == [] && PrintAll(OutPointBytes, b.spends) == bytes
    requires [|a.outputs| % 256] + PrintAll(ShortOutputBytes, a.outputs) == bytes + [0]
    ensures CoreBytes(a) == CoreBytes(b)
  {
    var lock := LE(a.lockTime, 4);
    assert OutputHalf(a) == ([|a.outputs| % 256] + PrintAll(ShortOutputBytes, a.outputs)) + lock;
    assert OutputHalf(b) == [0] + lock by { assert [] + lock == lock; }
    assert bytes + OutputHalf(b) == (bytes + [0]) + lock;
    assert [] + OutputHalf(a) == OutputHalf(a);
  }

  /** So many outputs with so many script bytes in all, the first ones filled up to the limit. */
  function Filled(count: nat, extra: nat, script: nat): (outs: seq<TxOutput>)
    ensures |outs| == count && forall o :: o in outs ==> |o.scriptPubkey| <= script
  {
    if count == 0 then [] else
    var n := FirstFill(extra, script);
    [TxOutput(0, Zeros(n))] + Filled(count - 1, extra - n, script)
  }

  /** The script bytes so many outputs can take, added up one output at a time. */
  function Capacity(count: nat, script: nat): nat {
    if count == 0 then 0 else script + Capacity(count - 1, script)
  }

  lemma {:induction false} CapacityIsProduct(count: nat, script: nat)
    ensures Capacity(count, script) == count * script
  {
    if count > 0 {
      CapacityIsProduct(count - 1, script);
      OneLess(count, script);
    }
  }

  function FilledBytes(count: nat, extra: nat, script: nat): seq<byte> {
    PrintAll(ShortOutputBytes, Filled(count, extra, script))
  }

  /** The script length of the first output. */
  function FirstFill(extra: nat, script: nat): nat { if extra < script then extra else script }

  lemma FilledFirst(count: nat, extra: nat, script: nat, n: nat)
    requires count > 0 && n == FirstFill(extra, script)
    ensures FilledBytes(count, extra, script)
         == ShortOutputBytes(TxOutput(0, Zeros(n))) + FilledBytes(count - 1, extra - n, script)
  {
    var rest := Filled(count - 1, extra - n, script);
    assert Filled(count, extra, script) == [TxOutput(0, Zeros(n))] + rest;
    assert ([TxOutput(0, Zeros(n))] + rest)[1..] == rest;
  }

  predicate EndsInZero(bs: seq<byte>) { bs != [] && bs[|bs| - 1] == 0 }

  /** So many bytes, the last of them zero. */
  predicate Measured(bs: seq<byte>, n: nat) { |bs| == n && (bs == [] || EndsInZero(bs)) }

  lemma JoinedMeasure(a: seq<byte>, n: nat, b: seq<byte>, m: nat)
    requires Measured(a, n) && Measured(b, m)
    ensures Measured(a + b, n + m)
  {
    assert b == [] ==> a + b == a;
  }

  lemma FilledNone(extra: nat, script: nat)
    requires extra <= Capacity(0, script)
    ensures Measured(FilledBytes(0, extra, script), extra)
  {
  }

  lemma FilledNext(count: nat, extra: nat, script: nat, n: nat)
    requires count > 0 && n == FirstFill(extra, script)
    requires Measured(FilledBytes(count - 1, extra - n, script), 9 * (count - 1) + (extra - n))
    ensures Measured(FilledBytes(count, extra, script), 9 * count + extra)
  {
    var first := ShortOutputBytes(TxOutput(0, Zeros(n)));
    var rest := FilledBytes(count - 1, extra - n, script);
    assert Measured(first, 9 + n) by { LastByteZero(n); }
    JoinedMeasure(first, 9 + n, rest, 9 * (count - 1) + (extra - n));
    FilledFirst(count, extra, script, n);
  }

  lemma {:induction false} FilledLength(count: nat, extra: nat, script: nat)
    requires extra <= Capacity(count, script)
    ensures Measured(FilledBytes(count, extra, script), 9 * count + extra)
  {
    if count == 0 {
      FilledNone(extra, script);
    } else {
      var n := FirstFill(extra, script);
      FilledLength(count - 1, extra - n, script);
      FilledNext(count, extra, script, n);
    }
  }

  lemma LastByteZero(n: nat)
    ensures |ShortOutputBytes(TxOutput(0, Zeros(n)))| == 9 + n
    ensures EndsInZero(ShortOutputBytes(TxOutput(0, Zeros(n))))
  {
  }

  lemma Distributed(count: nat, script: nat)
    ensures count * (9 + script) == 9 * count + count * script
  {
  }

  /** As many of the allowed outputs as fit into the bytes, and the script bytes still missing. */
  lemma FillingExists(outs: nat, script: nat, total: nat) returns (count: nat, extra: nat)
    requires outs * (9 + script) >= total && total % 9 == 0 && total > 0
    ensures 0 < count <= outs && extra <= Capacity(count, script) && 9 * count + extra == total
  {
    count := if outs < total / 9 then outs else total / 9;
    extra := total - 9 * count;
    Distributed(count, script);
    CapacityIsProduct(count, script);
  }

  lemma SpelledCount(bytes: seq<byte>, n: nat)
    requires |bytes| == 36 * n
    ensures |bytes| % 36 == 0 && |Spelled(bytes)| == n
  {
  }

  lemma FilledShareId(a: Core, n: nat) returns (b: Core)
    requires n % 256 == 0 && n > 0 && a.spends == []
    requires |PrintAll(ShortOutputBytes, a.outputs)| == 36 * n && EndsInZero(PrintAll(ShortOutputBytes, a.outputs))
    ensures |b.spends| == n && b.outputs == [] && Ambiguous(a, b)
  {
    var bytes := WithoutLast([|a.outputs| % 256], PrintAll(ShortOutputBytes, a.outputs));
    SpelledCount(bytes, n);
    OutputsAsInputs(a, bytes);
    b := a.(spends := Spelled(bytes), outputs := []);
  }

  /** Outputs that fill the bytes of n inputs make an ambiguous pair within the limits. */
  lemma ManyInputsShareId(ins: nat, outs: nat, script: nat, n: nat)
    requires n % 256 == 0 && n > 0 && ins >= n && outs * (9 + script) >= 36 * n
    ensures AmbiguousWithin(ins, outs, script)
  {
    var count, extra := FillingExists(outs, script, 36 * n);
    FilledLength(count, extra, script);
    var a := Core(1, [], Filled(count, extra, script), 0);
    var b := FilledShareId(a, n);
    assert Within(a, ins, outs, script) && Within(b, ins, outs, script);
  }

  // ---------- exactly when ids are ambiguous ----------

  /** Limits on inputs, outputs and script length admit payments with the same hashed bytes exactly when too wide. */
  lemma LimitsExact(ins: nat, outs: nat, script: nat)
    ensures AmbiguousWithin(ins, outs, script) <==> TooWide(ins, outs, script)
  {
    if outs >= 2 && script >= 256 {
      SwappedScriptsShareId(256);
      var a := Core(1, [], [TxOutput(0, Zeros(256)), TxOutput(0, [])], 0);
      var b := Core(1, [], [TxOutput(0, []), TxOutput(0, Zeros(256))], 0);
      assert Within(a, ins, outs, script) && Within(b, ins, outs, script);
    } else if TooWide(ins, outs, script) {
      ManyInputsShareId(ins, outs, script, 256);
    } else if a, b :| Within(a, ins, outs, script) && Within(b, ins, outs, script) && Ambiguous(a, b) {
      NarrowLimitsSuffice(a, b, ins, outs, script);
    }
  }

  /** With up to 255 inputs and outputs, script lengths up to 255 are told apart; the parser's limit is 10000. */
  lemma ScriptLimitExact(limit: nat)
    ensures AmbiguousWithin(255, 255, limit) <==> limit > 255
  {
    LimitsExact(255, 255, limit);
  }

  /** With up to 255 outputs and scripts of up to 255 bytes, input counts up to 255 are. */
  lemma InputLimitExact(limit: nat)
    ensures AmbiguousWithin(limit, 255, 255) <==> limit > 255
  {
    LimitsExact(limit, 255, 255);
  }

  /** With those limits on inputs and scripts, no number of outputs is too large. */
  lemma OutputLimitNone(limit: nat)
    ensures !AmbiguousWithin(255, limit, 255)
  {
    LimitsExact(255, limit, 255);
  }

  // ---------- one family of pairs ----------

  function Copies<T>(x: T, n: nat): (xs: seq<T>)
    ensures |xs| == n
    ensures forall i :: 0 <= i < n ==> xs[i] == x
  {
    if n == 0 then [] else [x] + Copies(x, n - 1)
  }

  const EMPTY_OUTPUT := TxOutput(0, [])

  lemma {:induction false} EmptyOutputs(n: nat)
    ensures PrintAll(ShortOutputBytes, Copies(EMPTY_OUTPUT, n)) == Zeros(9 * n)
  {
    if n > 0 {
      EmptyOutputs(n - 1);
      ZeroOutputBytes(0);
      assert Copies(EMPTY_OUTPUT, n)[1..] == Copies(EMPTY_OUTPUT, n - 1);
      assert Zeros(0) == [];
    }
  }

  /**
   For every k, one output whose script is 9 * 256 * k zero bytes and 256 * k + 1 empty outputs hash the
   same bytes. The smallest such script has 2304 bytes, well within what the parser accepts.
   */
  lemma LargeOutputsShareId(version: u32, spends: seq<OutPoint>, lockTime: u32, k: nat)
    ensures var a := Core(version, spends, [TxOutput(0, Zeros(9 * 256 * k))], lockTime);
            var b := Core(version, spends, Copies(EMPTY_OUTPUT, 256 * k + 1), lockTime);
            CoreBytes(a) == CoreBytes(b) && (k > 0 ==> a != b)
  {
    OneForMany(9 * (256 * k), 256 * k + 1);
    SameOutputBytes(Core(version, spends, [TxOutput(0, Zeros(9 * 256 * k))], lockTime),
                    Copies(EMPTY_OUTPUT, 256 * k + 1));
  }

  lemma SameOutputBytes(a: Core, outs: seq<TxOutput>)
    requires |a.outputs| % 256 == |outs| % 256
    requires PrintAll(ShortOutputBytes, a.outputs) == PrintAll(ShortOutputBytes, outs)
    ensures CoreBytes(a) == CoreBytes(a.(outputs := outs))
  {
  }

  lemma OneForMany(n: nat, count: nat)
    requires n % 256 == 0 && 9 + n == 9 * count
    ensures PrintAll(ShortOutputBytes, [TxOutput(0, Zeros(n))])
         == PrintAll(ShortOutputBytes, Copies(EMPTY_OUTPUT, count))
  {
    EmptyOutputs(count);
    OneItem(ShortOutputBytes, TxOutput(0, Zeros(n)));
    ZeroOutputBytes(n);
  }
}
