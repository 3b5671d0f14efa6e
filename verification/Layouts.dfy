/** The hashed, sent and stored bytes, position by position. */
module Layouts {
  import opened Bytes
  import opened Types
  import opened Codec
  import opened Txid
  import opened ProofOfWork

  // ---------- integers ----------

  /** Byte i of a little-endian integer is its i-th digit with base 256. */
  lemma {:induction false} ByteAt(v: nat, n: nat, i: nat)
    requires i < n
    ensures LE(v, n)[i] == v / Pow256(i) % 256
  {
    if i > 0 {
      ByteAt(v / 256, n - 1, i - 1);
      DivideTwice(v, 256, Pow256(i - 1));
    }
  }

  lemma DivideTwice(v: nat, a: nat, b: nat)
    requires a > 0 && b > 0
    ensures a * b > 0 && v / a / b == v / (a * b)
  {
    var m := a * b;
    RemainderBelow(a, b, 0, 0);
    Divided(v, a);
    Divided(v / a, b);
    TwoDivisions(v, a, b, m, v / a, v % a, v / a / b, v / a % b);
  }

  lemma Divided(v: nat, a: nat)
    requires a > 0
    ensures v == a * (v / a) + v % a && v % a < a
  {
  }

  lemma TwoDivisions(v: nat, a: nat, b: nat, m: nat, x: nat, u: nat, q: nat, s: nat)
    requires v == a * x + u && u < a && x == b * q + s && s < b && m == a * b > 0
    ensures v / m == q
  {
    RemainderBelow(a, b, s, u);
    Regrouped(a, b, q, s, u);
    QuotientIs(v, m, q, a * s + u);
  }

  lemma RemainderBelow(a: nat, b: nat, s: nat, u: nat)
    requires s < b && u < a
    ensures a * s + u < a * b
  {
    ProductGrows(s + 1, b, a);
  }

  lemma Regrouped(a: nat, b: nat, q: nat, s: nat, u: nat)
    ensures a * (b * q + s) + u == (a * b) * q + (a * s + u)
  {
    assert a * (b * q) == (a * b) * q;
  }

  lemma QuotientIs(v: nat, m: nat, q: nat, r: nat)
    requires m > 0 && v == m * q + r && r < m
    ensures v / m == q
  {
    var d := v / m - q;
    assert v == m * (v / m) + v % m;
    assert d * m == r - v % m;
    MultipleIsFar(d, m);
  }

  // ---------- headers ----------

  lemma SixFields(v: seq<byte>, p: seq<byte>, m: seq<byte>, t: seq<byte>, d: seq<byte>, n: seq<byte>)
    requires |v| == 4 && |p| == 32 && |m| == 32 && |d| == 4
    ensures var all := v + (p + (m + (t + (d + n))));
            && |all| == 72 + |t| + |n|
            && all[..4] == v && all[4..36] == p && all[36..68] == m && all[68..68 + |t|] == t
            && all[68 + |t|..72 + |t|] == d && all[72 + |t|..] == n
  {
  }

  /** Where each field lies in the 80 hashed bytes; of the timestamp only the low four bytes. */
  lemma HashedHeaderLayout(h: BlockHeader)
    ensures var p := HashedHeader(h);
            && p[..4] == LE(h.version, 4) && p[4..36] == h.previousHash && p[36..68] == h.merkleRoot
            && p[68..72] == LE(h.timestamp, 8)[..4] && p[72..76] == LE(h.difficultyTarget, 4)
            && p[76..] == LE(h.nonce, 4)
  {
    LowHalf(h.timestamp);
    SixFields(LE(h.version, 4), h.previousHash, h.merkleRoot, LE(h.timestamp % 0x1_0000_0000, 4),
              LE(h.difficultyTarget, 4), LE(h.nonce, 4));
  }

  /** And in the 84 stored ones. */
  lemma StoredHeaderLayout(h: BlockHeader)
    ensures var p := StoredHeader(h);
            && p[..4] == LE(h.version, 4) && p[4..36] == h.previousHash && p[36..68] == h.merkleRoot
            && p[68..76] == LE(h.timestamp, 8) && p[76..80] == LE(h.difficultyTarget, 4)
            && p[80..] == LE(h.nonce, 4)
  {
    SixFields(LE(h.version, 4), h.previousHash, h.merkleRoot, LE(h.timestamp, 8),
              LE(h.difficultyTarget, 4), LE(h.nonce, 4));
  }

  // ---------- what a transaction id hashes ----------

  /** Bytes of the outputs before number j: eight for the amount, one for the length, and the script. */
  function OutputOffset(outs: seq<TxOutput>, j: nat): nat
    requires j <= |outs|
  {
    if j == 0 then 0 else OutputOffset(outs, j - 1) + 9 + |outs[j - 1].scriptPubkey|
  }

  lemma {:induction false} PrintedPrefix<T>(show: T -> seq<byte>, xs: seq<T>, i: nat)
    requires i <= |xs|
    ensures PrintAll(show, xs) == PrintAll(show, xs[..i]) + PrintAll(show, xs[i..])
  {
    if i == 0 {
      assert xs[0..] == xs && xs[..0] == [];
    } else {
      PrintedPrefix(show, xs[1..], i - 1);
      assert xs[..i][1..] == xs[1..][..i - 1] && xs[1..][i - 1..] == xs[i..];
    }
  }

  /** These bytes lie there. */
  predicate Holds(p: seq<byte>, at: nat, part: seq<byte>) {
    at + |part| <= |p| && p[at..at + |part|] == part
  }

  lemma MiddlePart(a: seq<byte>, b: seq<byte>, c: seq<byte>)
    ensures Holds(a + (b + c), |a|, b)
  {
  }

  /** Items lie one after another, in order. */
  lemma PrintedAt<T>(show: T -> seq<byte>, xs: seq<T>, i: nat)
    requires i < |xs|
    ensures Holds(PrintAll(show, xs), |PrintAll(show, xs[..i])|, show(xs[i]))
  {
    PrintedPrefix(show, xs, i);
    assert PrintAll(show, xs[i..]) == show(xs[i]) + PrintAll(show, xs[i..][1..]);
    MiddlePart(PrintAll(show, xs[..i]), show(xs[i]), PrintAll(show, xs[i..][1..]));
  }

  lemma {:induction false} OffsetIsLength(outs: seq<TxOutput>, j: nat)
    requires j <= |outs|
    ensures |PrintAll(ShortOutputBytes, outs[..j])| == OutputOffset(outs, j)
  {
    if j > 0 {
      OffsetIsLength(outs, j - 1);
      PrintedPrefix(ShortOutputBytes, outs[..j], j - 1);
      assert outs[..j][..j - 1] == outs[..j - 1] && outs[..j][j - 1..] == [outs[j - 1]];
      assert [outs[j - 1]][1..] == [];
    }
  }

  lemma SpendAt(ops: seq<OutPoint>, i: nat)
    requires i < |ops|
    ensures |PrintAll(OutPointBytes, ops)| == 36 * |ops|
    ensures PrintAll(OutPointBytes, ops)[36 * i..36 * i + 36] == ops[i].hash + LE(ops[i].index, 4)
  {
    SpendsLength(ops);
    SpendsLength(ops[..i]);
    PrintedAt(OutPointBytes, ops, i);
  }

  /** The bytes of one output: the amount in eight, the script's length cast to one, the script. */
  function OneOutput(o: TxOutput): (bs: seq<byte>)
    ensures |bs| == 9 + |o.scriptPubkey|
  {
    LE(o.amount, 8) + [|o.scriptPubkey| % 256] + o.scriptPubkey
  }

  lemma OneOutputIs(o: TxOutput)
    ensures ShortOutputBytes(o) == OneOutput(o)
  {
  }

  lemma OutputsLengthIs(outs: seq<TxOutput>)
    ensures |PrintAll(ShortOutputBytes, outs)| == OutputOffset(outs, |outs|)
  {
    OffsetIsLength(outs, |outs|);
    assert outs[..|outs|] == outs;
  }

  lemma OutputAt(outs: seq<TxOutput>, j: nat)
    requires j < |outs|
    ensures Holds(PrintAll(ShortOutputBytes, outs), OutputOffset(outs, j), OneOutput(outs[j]))
  {
    OffsetIsLength(outs, j);
    OneOutputIs(outs[j]);
    PrintedAt(ShortOutputBytes, outs, j);
  }

  /** The six parts of what is hashed, in order. */
  lemma PreimageParts(tx: Transaction)
    ensures var s, o := PrintAll(OutPointBytes, Spends(tx.inputs)), PrintAll(ShortOutputBytes, tx.outputs);
            Preimage(tx) == LE(tx.version, 4) + [|tx.inputs| % 256] + s + [|tx.outputs| % 256] + o + LE(tx.lockTime, 4)
  {
    Nest(LE(tx.version, 4), [|tx.inputs| % 256], PrintAll(OutPointBytes, Spends(tx.inputs)),
         [|tx.outputs| % 256], PrintAll(ShortOutputBytes, tx.outputs), LE(tx.lockTime, 4));
  }

  lemma SixParts(p: seq<byte>, a: seq<byte>, b: byte, c: seq<byte>, d: byte, e: seq<byte>, f: seq<byte>)
    requires |a| == 4 && |f| == 4 && p == a + [b] + c + [d] + e + f
    ensures |p| == 10 + |c| + |e|
    ensures p[..4] == a && p[4] == b && p[5..5 + |c|] == c && p[5 + |c|] == d
    ensures p[6 + |c|..6 + |c| + |e|] == e && p[6 + |c| + |e|..] == f
  {
  }

  /** Version, both counts cast to a byte, and lock time. */
  lemma PreimageFrame(tx: Transaction)
    ensures var p, n, o := Preimage(tx), 36 * |tx.inputs|, OutputOffset(tx.outputs, |tx.outputs|);
            && |p| == 10 + n + o
            && p[..4] == LE(tx.version, 4) && p[4] == |tx.inputs| % 256
            && p[5 + n] == |tx.outputs| % 256 && p[6 + n + o..] == LE(tx.lockTime, 4)
            && p[5..5 + n] == PrintAll(OutPointBytes, Spends(tx.inputs))
            && p[6 + n..6 + n + o] == PrintAll(ShortOutputBytes, tx.outputs)
  {
    PreimageParts(tx);
    SpendsLength(Spends(tx.inputs));
    OutputsLengthIs(tx.outputs);
    SixParts(Preimage(tx), LE(tx.version, 4), |tx.inputs| % 256, PrintAll(OutPointBytes, Spends(tx.inputs)),
             |tx.outputs| % 256, PrintAll(ShortOutputBytes, tx.outputs), LE(tx.lockTime, 4));
  }

  /** A part of the middle of a byte string lies that much further on in the whole. */
  lemma PartOfMiddle(p: seq<byte>, low: nat, middle: seq<byte>, at: nat, part: seq<byte>)
    requires Holds(p, low, middle) && Holds(middle, at, part)
    ensures Holds(p, low + at, part)
  {
    forall k | 0 <= k < |part|
      ensures p[low + at + k] == part[k]
    {
      assert part[k] == middle[at..at + |part|][k] == middle[at + k];
      assert middle[at + k] == p[low..low + |middle|][at + k];
    }
  }

  /** Input i takes 36 bytes: the spent id, then the output number; signatures and keys are not among them. */
  lemma PreimageInput(tx: Transaction, i: nat)
    requires i < |tx.inputs|
    ensures Holds(Preimage(tx), 5 + 36 * i, tx.inputs[i].prevTxHash + LE(tx.inputs[i].outputIndex, 4))
  {
    var spends := PrintAll(OutPointBytes, Spends(tx.inputs));
    assert Holds(Preimage(tx), 5, spends) by {
      PreimageFrame(tx);
      SpendsLength(Spends(tx.inputs));
    }
    assert Holds(spends, 36 * i, tx.inputs[i].prevTxHash + LE(tx.inputs[i].outputIndex, 4)) by {
      SpendAt(Spends(tx.inputs), i);
    }
    PartOfMiddle(Preimage(tx), 5, spends, 36 * i, tx.inputs[i].prevTxHash + LE(tx.inputs[i].outputIndex, 4));
  }

  /** Output j lies behind the inputs, the two counts and the outputs before it. */
  lemma PreimageOutput(tx: Transaction, j: nat)
    requires j < |tx.outputs|
    ensures Holds(Preimage(tx), 6 + 36 * |tx.inputs| + OutputOffset(tx.outputs, j), OneOutput(tx.outputs[j]))
  {
    var outs := PrintAll(ShortOutputBytes, tx.outputs);
    assert Holds(Preimage(tx), 6 + 36 * |tx.inputs|, outs) by {
      PreimageFrame(tx);
      OutputsLengthIs(tx.outputs);
    }
    OutputAt(tx.outputs, j);
    PartOfMiddle(Preimage(tx), 6 + 36 * |tx.inputs|, outs, OutputOffset(tx.outputs, j), OneOutput(tx.outputs[j]));
  }

  // ---------- the wire ----------

  /** The three forms of a length prefix, byte by byte. */
  lemma VarIntForms(n: nat)
    ensures n < 0xfd ==> VarInt(n) == [n]
    ensures 0xfd <= n <= 0xffff ==> VarInt(n) == [0xfd, n % 256, n / 256]
    ensures n > 0xffff ==>
              VarInt(n) == [0xfe, n % 256, n / 256 % 256, n / 256 / 256 % 256, n / 256 / 256 / 256 % 256]
  {
    if 0xfd <= n <= 0xffff {
      TwoBytes(n);
    } else if n > 0xffff {
      FourBytesOf(n);
    }
  }

  lemma TwoBytes(n: nat)
    ensures LE(n, 2) == [n % 256, n / 256 % 256]
  {
    assert LE(n, 2) == [n % 256] + LE(n / 256, 1);
    assert LE(n / 256, 1) == [n / 256 % 256] + LE(n / 256 / 256, 0);
  }

  lemma FourBytesOf(n: nat)
    ensures LE(n, 4) == [n % 256, n / 256 % 256, n / 256 / 256 % 256, n / 256 / 256 / 256 % 256]
  {
    assert LE(n, 4) == [n % 256] + LE(n / 256, 3);
    assert LE(n / 256, 3) == [n / 256 % 256] + LE(n / 256 / 256, 2);
    TwoBytes(n / 256 / 256);
  }

  /** How the reader takes them: the five-byte form as a signed number widened to 64 bits, 255 not at all. */
  lemma VarIntRead(a: byte, b: byte, c: byte, d: byte, rest: seq<byte>)
    ensures a < 0xfd ==> ParseVarInt([a] + rest) == Done(a, rest)
    ensures ParseVarInt([0xfd, a, b] + rest) == Done(a + 256 * b, rest)
    ensures ParseVarInt([0xfe, a, b, c, d] + rest)
         == Done(a + 256 * b + 0x1_0000 * c + 0x100_0000 * d + if d < 128 then 0 else 0xffff_ffff_0000_0000, rest)
    ensures ParseVarInt([0xff] + rest) == Fail && ParseVarInt([]) == Fail
    ensures |rest| < 2 ==> ParseVarInt([0xfd] + rest) == Fail
    ensures |rest| < 4 ==> ParseVarInt([0xfe] + rest) == Fail
  {
    var two, four := [0xfd, a, b] + rest, [0xfe, a, b, c, d] + rest;
    assert ([a] + rest)[1..] == rest;
    assert two[1..3] == [a, b] && two[3..] == rest && four[1..5] == [a, b, c, d] && four[5..] == rest;
    FromFourBytes(a, b, c, d);
  }

  lemma FromFourBytes(a: byte, b: byte, c: byte, d: byte)
    ensures FromLE([a, b]) == a + 256 * b
    ensures FromLE([a, b, c, d]) == a + 256 * b + 0x1_0000 * c + 0x100_0000 * d
  {
    assert FromLE([]) == 0;
    assert [d][1..] == [] && [c, d][1..] == [d] && [b, c, d][1..] == [c, d] && [a, b, c, d][1..] == [b, c, d];
    assert FromLE([d]) == d && FromLE([c, d]) == c + 256 * d;
    assert FromLE([b, c, d]) == b + 256 * (c + 256 * d);
    assert [b][1..] == [] && [a, b][1..] == [b];
    assert FromLE([b]) == b;
  }

  /** The parts of a sent transaction, of its inputs and of its outputs, in order. */
  lemma TxBytesParts(tx: Transaction)
    ensures TxBytes(tx) == LE(tx.version, 4) + VarInt(|tx.inputs|) + PrintAll(InputBytes, tx.inputs)
                           + VarInt(|tx.outputs|) + PrintAll(OutputBytes, tx.outputs) + LE(tx.lockTime, 4)
    ensures forall i: TxInput ::
              InputBytes(i) == i.prevTxHash + LE(i.outputIndex, 4) + VarInt(|i.signature|) + i.signature
                               + VarInt(|i.pubkey|) + i.pubkey
    ensures forall o: TxOutput ::
              OutputBytes(o) == LE(o.amount, 8) + VarInt(|o.scriptPubkey|) + o.scriptPubkey
  {
    Nest(LE(tx.version, 4), VarInt(|tx.inputs|), PrintAll(InputBytes, tx.inputs),
         VarInt(|tx.outputs|), PrintAll(OutputBytes, tx.outputs), LE(tx.lockTime, 4));
    forall i: TxInput
      ensures InputBytes(i) == i.prevTxHash + LE(i.outputIndex, 4) + VarInt(|i.signature|) + i.signature
                               + VarInt(|i.pubkey|) + i.pubkey
    {
      Nest(i.prevTxHash, LE(i.outputIndex, 4), VarInt(|i.signature|), i.signature, VarInt(|i.pubkey|), i.pubkey);
      assert (VarInt(|i.signature|) + i.signature) + (VarInt(|i.pubkey|) + i.pubkey)
          == VarInt(|i.signature|) + (i.signature + (VarInt(|i.pubkey|) + i.pubkey));
    }
    forall o: TxOutput
      ensures OutputBytes(o) == LE(o.amount, 8) + VarInt(|o.scriptPubkey|) + o.scriptPubkey
    {
      assert LE(o.amount, 8) + (VarInt(|o.scriptPubkey|) + o.scriptPubkey)
          == LE(o.amount, 8) + VarInt(|o.scriptPubkey|) + o.scriptPubkey;
    }
  }

  /** The stored header, the number of transactions, and these in order. */
  lemma BlockBytesParts(b: Block)
    ensures BlockBytes(b) == StoredHeader(b.header) + VarInt(|b.transactions|) + PrintAll(TxBytes, b.transactions)
  {
  }
}
