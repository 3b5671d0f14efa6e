/** The CLI's Base64 encoder against the server's decoder: two bit accumulators over a 32-bit integer. */
module Base64 {
  import opened Bytes
  import opened Types

  // ---------- machine arithmetic ----------

  /** The value a C++ `int` keeps of x: the low 32 bits, signed. */
  function Wrap32(x: int): int {
    (x + 0x8000_0000) % 0x1_0000_0000 - 0x8000_0000
  }

  /** 2 to the n for the few n the accumulators meet. */
  function Two(n: nat): (p: nat)
    ensures p > 0
  {
    if n == 0 then 1 else if n == 2 then 4 else if n == 4 then 16 else if n == 6 then 64
    else if n == 8 then 256 else if n == 10 then 1024 else 4096
  }

  /** Arithmetic right shift by one of those n; it rounds towards minus infinity. */
  function Shr(x: int, n: nat): int { x / Two(n) }

  lemma ModOf(z: int, m: nat, r: nat)
    requires r < m
    ensures (m * z + r) % m == r
  {
    var q := (m * z + r) / m;
    assert m * z + r == m * q + (m * z + r) % m;
    assert (z - q) * m == (m * z + r) % m - r;
    MultipleIsFar(z - q, m);
  }

  // ---------- the alphabet ----------

  const SYMBOLS: string :=
    "ABCDEFGHIJKLM" + "NOPQRSTUVWXYZ" + "abcdefghijklm" + "nopqrstuvwxyz" + "0123456789" + "+/"

  function Code(d: nat): nat
    requires d < 64
  {
    if d < 26 then 65 + d else if d < 52 then 71 + d else if d < 62 then d - 4 else if d == 62 then 43 else 47
  }

  /** Value of a symbol by its character code. */
  function ValueOf(c: nat): (v: Option<nat>)
    ensures v.Some? ==> v.value < 64
  {
    if 65 <= c < 91 then Some(c - 65)
    else if 97 <= c < 123 then Some(c - 71)
    else if 48 <= c < 58 then Some(c + 4)
    else if c == 43 then Some(62)
    else if c == 47 then Some(63)
    else None
  }

  lemma LetterCode(d: nat)
    requires d < 26
    ensures SYMBOLS[d] as int == Code(d)
  {
    if d < 13 {
      assert SYMBOLS[d] == "ABCDEFGHIJKLM"[d];
    } else {
      assert SYMBOLS[d] == "NOPQRSTUVWXYZ"[d - 13];
    }
  }

  lemma OtherCode(d: nat)
    requires 26 <= d < 64
    ensures SYMBOLS[d] as int == Code(d)
  {
    if d < 39 {
      assert SYMBOLS[d] == "abcdefghijklm"[d - 26];
    } else if d < 52 {
      assert SYMBOLS[d] == "nopqrstuvwxyz"[d - 39];
    } else if d < 62 {
      assert SYMBOLS[d] == "0123456789"[d - 52];
    } else {
      assert SYMBOLS[d] == "+/"[d - 62];
    }
  }

  /** Each symbol has the value of its place, and only it has. */
  lemma SymbolCode(d: nat)
    requires d < 64
    ensures SYMBOLS[d] as int == Code(d)
    ensures forall c: nat :: ValueOf(c) == Some(d) <==> c == Code(d)
  {
    if d < 26 {
      LetterCode(d);
    } else {
      OtherCode(d);
    }
  }

  predicate Sextets(ds: seq<nat>) { forall i :: 0 <= i < |ds| ==> ds[i] < 64 }

  function Spell(ds: seq<nat>): (s: string)
    requires Sextets(ds)
    ensures |s| == |ds|
    ensures forall i :: 0 <= i < |ds| ==> s[i] == SYMBOLS[ds[i]]
  {
    if ds == [] then "" else [SYMBOLS[ds[0]]] + Spell(ds[1..])
  }

  // ---------- specification: section 4 of RFC 4648 ----------

  function Group(a: byte, b: byte, c: byte): (g: seq<nat>)
    ensures |g| == 4 && Sextets(g)
  {
    [a / 4, a % 4 * 16 + b / 16, b % 16 * 4 + c / 64, c % 64]
  }

  /** Three bytes as four sextets; one or two left-over bytes are filled up with zero bits. */
  function Groups(s: seq<byte>): (ds: seq<nat>)
    ensures Sextets(ds)
  {
    if |s| == 0 then []
    else if |s| == 1 then Group(s[0], 0, 0)[..2]
    else if |s| == 2 then Group(s[0], s[1], 0)[..3]
    else Group(s[0], s[1], s[2]) + Groups(s[3..])
  }

  /** Padding to a multiple of four symbols. */
  function Padding(n: nat): string {
    if n % 4 == 0 then "" else if n % 4 == 1 then "===" else if n % 4 == 2 then "==" else "="
  }

  function Encoded(s: seq<byte>): string { Spell(Groups(s)) + Padding(|Groups(s)|) }

  // ---------- the encoder's accumulator ----------

  /** Sextets still to come when n bits of value w are pending and `rest` is unread. */
  function Pending(n: nat, w: nat, rest: seq<byte>): seq<nat>
    decreases |rest|, n
  {
    if n >= 6 then [w / Two(n - 6) % 64] + Pending(n - 6, w % Two(n - 6), rest)
    else if rest != [] then Pending(n + 8, w * 256 + rest[0], rest[1..])
    else if n > 0 then [w * Two(6 - n) % 64]
    else []
  }

  lemma PendingRead(n: nat, w: nat, c: byte, rest: seq<byte>)
    requires n < 6
    ensures Pending(n, w, [c] + rest) == Pending(n + 8, w * 256 + c, rest)
  {
    assert ([c] + rest)[1..] == rest;
  }

  lemma PendingEmit(n: nat, w: nat, rest: seq<byte>)
    requires n >= 6
    ensures Pending(n, w, rest) == [w / Two(n - 6) % 64] + Pending(n - 6, w % Two(n - 6), rest)
  {
  }

  /** One byte read and one sextet put out, with the power of two as a plain number. */
  lemma PendingByte(n: nat, w: nat, c: byte, rest: seq<byte>, v: nat, p: nat)
    requires n < 6 && v == w * 256 + c && p == Two(n + 2)
    ensures Pending(n, w, [c] + rest) == [v / p % 64] + Pending(n + 2, v % p, rest)
  {
    PendingRead(n, w, c, rest);
    PendingEmit(n + 8, v, rest);
  }

  lemma PendingSix(x: nat, rest: seq<byte>)
    requires x < 64
    ensures Pending(6, x, rest) == [x] + Pending(0, 0, rest)
  {
    assert x / 1 % 64 == x && x % 1 == 0 && Two(0) == 1;
    PendingEmit(6, x, rest);
  }

  lemma PendingOne(a: byte, rest: seq<byte>)
    ensures Pending(0, 0, [a] + rest) == [a / 4] + Pending(2, a % 4, rest)
  {
    PendingByte(0, 0, a, rest, a, 4);
  }

  lemma PendingTwo(w: nat, b: byte, rest: seq<byte>)
    requires w < 4
    ensures Pending(2, w, [b] + rest) == [w * 16 + b / 16] + Pending(4, b % 16, rest)
  {
    LowFour(w, b);
    PendingByte(2, w, b, rest, w * 256 + b, 16);
  }

  lemma LowFour(w: nat, b: byte)
    requires w < 4
    ensures (w * 256 + b) / 16 % 64 == w * 16 + b / 16 && (w * 256 + b) % 16 == b % 16
  {
    assert (w * 256 + b) / 16 == w * 16 + b / 16;
  }

  lemma PendingThree(w: nat, c: byte, rest: seq<byte>)
    requires w < 16
    ensures Pending(4, w, [c] + rest) == [w * 4 + c / 64] + ([c % 64] + Pending(0, 0, rest))
  {
    LowSix(w, c);
    PendingByte(4, w, c, rest, w * 256 + c, 64);
    PendingSix(c % 64, rest);
  }

  lemma LowSix(w: nat, c: byte)
    requires w < 16
    ensures (w * 256 + c) / 64 % 64 == w * 4 + c / 64 && (w * 256 + c) % 64 == c % 64
  {
    assert (w * 256 + c) / 64 == w * 4 + c / 64;
  }

  lemma PendingGroup(a: byte, b: byte, c: byte, rest: seq<byte>)
    ensures Pending(0, 0, [a] + ([b] + ([c] + rest))) == Group(a, b, c) + Pending(0, 0, rest)
  {
    PendingOne(a, [b] + ([c] + rest));
    PendingTwo(a % 4, b, [c] + rest);
    PendingThree(b % 16, c, rest);
    FourInFront(a / 4, a % 4 * 16 + b / 16, b % 16 * 4 + c / 64, c % 64, Pending(0, 0, rest));
  }

  lemma FourInFront(a: nat, b: nat, c: nat, d: nat, rest: seq<nat>)
    ensures [a] + ([b] + ([c] + ([d] + rest))) == [a, b, c, d] + rest
  {
  }

  /** The accumulator produces the group-wise sextets. */
  lemma {:induction false} PendingIsGroups(s: seq<byte>)
    ensures Pending(0, 0, s) == Groups(s)
    decreases |s|
  {
    if |s| >= 3 {
      PendingIsGroups(s[3..]);
      PendingGroup(s[0], s[1], s[2], s[3..]);
      assert s == [s[0]] + ([s[1]] + ([s[2]] + s[3..]));
    } else if |s| == 2 {
      PendingOne(s[0], [s[1]]);
      assert s == [s[0]] + [s[1]] && [s[1]] == [s[1]] + [];
      PendingTwo(s[0] % 4, s[1], []);
      PendingEnd(4, s[1] % 16);
    } else if |s| == 1 {
      PendingOne(s[0], []);
      assert s == [s[0]] + [];
      PendingEnd(2, s[0] % 4);
    }
  }

  lemma PendingEnd(n: nat, w: nat)
    requires (n == 2 && w < 4) || (n == 4 && w < 16)
    ensures Pending(n, w, []) == [if n == 2 then w * 16 else w * 4]
  {
  }

  // ---------- the encoder ----------

  /** Reading a byte into the wrapped accumulator keeps the pending bits: only low bits matter. */
  lemma ReadByte(val: int, c: byte, n: nat)
    requires n == 0 || n == 2 || n == 4
    ensures Wrap32(val * 256 + c) % Two(n + 8) == (val % Two(n)) * 256 + c
  {
    var q := (val * 256 + c + 0x8000_0000) / 0x1_0000_0000;
    assert Wrap32(val * 256 + c) == val * 256 + c - q * 0x1_0000_0000;
    if n == 0 {
      ModOf(val - q * 0x100_0000, 256, c);
    } else if n == 2 {
      ModOf(val / 4 - q * 0x40_0000, 1024, val % 4 * 256 + c);
    } else {
      ModOf(val / 16 - q * 0x10_0000, 4096, val % 16 * 256 + c);
    }
  }

  /** The top six of the pending bits, and the rest. */
  lemma TopSix(val: int, k: nat)
    requires k == 0 || k == 2 || k == 4 || k == 6
    ensures val % Two(k + 6) / Two(k) % 64 == Shr(val, k) % 64
    ensures val % Two(k + 6) % Two(k) == val % Two(k)
  {
    SplitBits(val, Two(k), 64);
    assert Two(k + 6) == Two(k) * 64;
  }

  lemma SplitBits(val: int, p: nat, m: nat)
    requires p > 0 && m > 0
    ensures p * m > 0
    ensures val % (p * m) / p == val / p % m
    ensures val % (p * m) % p == val % p
  {
    assert p * m > 0;
    var q, r := val / p / m, val / p % m;
    var s := val % p;
    assert val == p * (val / p) + s && val / p == m * q + r;
    calc {
      val;
      p * (m * q + r) + s;
      p * (m * q) + p * r + s;
      { assert p * (m * q) == (p * m) * q; }
      (p * m) * q + (p * r + s);
    }
    assert p * r + s < p * m by { Below(p, m, r, s); }
    ModOf(q, p * m, p * r + s);
    ModOf(r, p, s);
    assert p * r + s == p * ((p * r + s) / p) + s;
    SameFactor(p, r, (p * r + s) / p);
  }

  lemma Below(p: nat, m: nat, r: nat, s: nat)
    requires r < m && s < p
    ensures p * r + s < p * m
  {
    var d: nat := m - 1 - r;
    calc {
      p * m;
      p * (r + 1 + d);
      p * r + p + p * d;
    }
  }

  lemma SameFactor(p: nat, a: int, b: int)
    requires p > 0 && p * a == p * b
    ensures a == b
  {
    assert (a - b) * p == 0;
    MultipleIsFar(a - b, p);
  }

  /** One round of the encoder: a byte in, one or two sextets out. */
  method TakeByte(out: seq<nat>, val: int, valb: int, c: byte, ghost rest: seq<byte>)
      returns (out': seq<nat>, val': int, valb': int)
    requires valb == -6 || valb == -4 || valb == -2
    ensures valb' == -6 || valb' == -4 || valb' == -2
    ensures out' + Pending(valb' + 6, val' % Two(valb' + 6), rest)
         == out + Pending(valb + 6, val % Two(valb + 6), [c] + rest)
  {
    ReadByte(val, c, valb + 6);
    PendingRead(valb + 6, val % Two(valb + 6), c, rest);
    val' := Wrap32(val * 256 + c);
    valb' := valb + 8;
    out' := out;
    while valb' >= 0
      invariant valb' == -6 || valb' == -4 || valb' == -2 || valb' == 0 || valb' == 2 || valb' == 4 || valb' == 6
      invariant out' + Pending(valb' + 6, val' % Two(valb' + 6), rest)
             == out + Pending(valb + 6, val % Two(valb + 6), [c] + rest)
      decreases valb' + 6
    {
      out' := EmitSextet(out', val', valb', rest);
      valb' := valb' - 6;
    }
  }

  method EncodeBits(s: seq<byte>) returns (out: seq<nat>)
    ensures out == Groups(s)
  {
    out := [];
    var val, valb := 0, -6;
    assert s[0..] == s;
    assert out + Pending(0, 0, s) == Pending(0, 0, s);
    for i := 0 to |s|
      invariant valb == -6 || valb == -4 || valb == -2
      invariant out + Pending(valb + 6, val % Two(valb + 6), s[i..]) == Pending(0, 0, s)
    {
      assert s[i..] == [s[i]] + s[i + 1..];
      out, val, valb := TakeByte(out, val, valb, s[i], s[i + 1..]);
    }
    PendingLast(val, valb + 6);
    if valb > -6 {
      out := out + [Shr(Wrap32(val * 256), valb + 8) % 64];
    }
    PendingIsGroups(s);
  }

  method EmitSextet(out: seq<nat>, val: int, valb: nat, ghost rest: seq<byte>) returns (res: seq<nat>)
    requires valb == 0 || valb == 2 || valb == 4 || valb == 6
    ensures out + Pending(valb + 6, val % Two(valb + 6), rest) == res + Pending(valb, val % Two(valb), rest)
  {
    res := out + [Shr(val, valb) % 64];
    TopSix(val, valb);
    PendingEmit(valb + 6, val % Two(valb + 6), rest);
    assert out + ([Shr(val, valb) % 64] + Pending(valb, val % Two(valb), rest))
        == res + Pending(valb, val % Two(valb), rest);
  }

  lemma PendingLast(val: int, n: nat)
    requires n == 0 || n == 2 || n == 4
    ensures Pending(n, val % Two(n), []) == if n == 0 then [] else [Shr(Wrap32(val * 256), n + 2) % 64]
  {
    if n > 0 {
      var q := (val * 256 + 0x8000_0000) / 0x1_0000_0000;
      assert Wrap32(val * 256) == val * 256 - q * 0x1_0000_0000;
      PendingEnd(n, val % Two(n));
      if n == 2 {
        assert Wrap32(val * 256) / 16 == val * 16 - q * 0x1000_0000;
        ModOf(val / 4 - q * 0x40_0000, 64, val % 4 * 16);
      } else {
        assert Wrap32(val * 256) / 64 == val * 4 - q * 0x400_0000;
        ModOf(val / 16 - q * 0x10_0000, 64, val % 16 * 4);
      }
    }
  }

  method Pad(unpadded: string) returns (out: string)
    ensures out == unpadded + Padding(|unpadded|)
  {
    out := unpadded;
    while |out| % 4 != 0
      invariant out + Padding(|out|) == unpadded + Padding(|unpadded|)
      decreases (4 - |out| % 4) % 4
    {
      PadStep(out);
      out := out + ['='];
    }
  }

  lemma PadStep(out: string)
    requires |out| % 4 != 0
    ensures (out + ['=']) + Padding(|out| + 1) == out + Padding(|out|)
  {
  }

  /** The encoder computes the encoding of RFC 4648, although its accumulator wraps. */
  method Base64Encode(s: seq<byte>) returns (out: string)
    ensures out == Encoded(s)
  {
    var sextets := EncodeBits(s);
    out := Pad(Spell(sextets));
  }

  // ---------- the decoder ----------

  /** The values of the symbols before the first foreign one. */
  function Read(text: string): (ds: seq<nat>)
    ensures Sextets(ds)
  {
    if text == "" || ValueOf(text[0] as int).None? then []
    else [ValueOf(text[0] as int).value] + Read(text[1..])
  }

  /** Bytes still to come when n bits of value w are pending and the sextets `ds` are unread. */
  function Decoding(n: nat, w: nat, ds: seq<nat>): seq<byte>
    decreases |ds|, n
  {
    if n >= 8 then [w / Two(n - 8) % 256] + Decoding(n - 8, w % Two(n - 8), ds)
    else if ds == [] then []
    else Decoding(n + 6, w * 64 + ds[0], ds[1..])
  }

  function Decoded(text: string): seq<byte> { Decoding(0, 0, Read(text)) }

  method BuildTable() returns (t: seq<int>)
    ensures |t| == 256
    ensures forall c :: 0 <= c < 256 ==> t[c] == if ValueOf(c).Some? then ValueOf(c).value else -1
  {
    t := seq(256, _ => -1);
    for i := 0 to 64
      invariant |t| == 256
      invariant forall c :: 0 <= c < 256 ==>
                  t[c] == if ValueOf(c).Some? && ValueOf(c).value < i then ValueOf(c).value else -1
    {
      SymbolCode(i);
      t := t[SYMBOLS[i] as int := i];
    }
  }

  lemma ReadSextet(val: int, d: nat, n: nat)
    requires d < 64 && (n == 0 || n == 2 || n == 4 || n == 6)
    ensures Wrap32(val * 64 + d) % Two(n + 6) == (val % Two(n)) * 64 + d
  {
    var q := (val * 64 + d + 0x8000_0000) / 0x1_0000_0000;
    assert Wrap32(val * 64 + d) == val * 64 + d - q * 0x1_0000_0000;
    if n == 0 {
      ModOf(val - q * 0x400_0000, 64, d);
    } else if n == 2 {
      ModOf(val / 4 - q * 0x100_0000, 256, val % 4 * 64 + d);
    } else if n == 4 {
      ModOf(val / 16 - q * 0x40_0000, 1024, val % 16 * 64 + d);
    } else {
      ModOf(val / 64 - q * 0x10_0000, 4096, val % 64 * 64 + d);
    }
  }

  lemma DecodingRead(n: nat, w: nat, d: nat, ds: seq<nat>)
    requires n < 8
    ensures Decoding(n, w, [d] + ds) == Decoding(n + 6, w * 64 + d, ds)
  {
    assert ([d] + ds)[1..] == ds;
  }

  lemma DecodingEmit(n: nat, w: nat, ds: seq<nat>)
    requires n >= 8
    ensures Decoding(n, w, ds) == [w / Two(n - 8) % 256] + Decoding(n - 8, w % Two(n - 8), ds)
  {
  }

  method EmitByte(out: seq<byte>, val: int, valb: nat, ghost rest: seq<nat>) returns (res: seq<byte>)
    requires valb == 0 || valb == 2 || valb == 4
    ensures out + Decoding(valb + 8, val % Two(valb + 8), rest) == res + Decoding(valb, val % Two(valb), rest)
  {
    res := out + [Shr(val, valb) % 256];
    SplitBits(val, Two(valb), 256);
    assert Two(valb + 8) == Two(valb) * 256;
    DecodingEmit(valb + 8, val % Two(valb + 8), rest);
    assert out + ([Shr(val, valb) % 256] + Decoding(valb, val % Two(valb), rest))
        == res + Decoding(valb, val % Two(valb), rest);
  }

  /** One round of the decoder: a sextet in, at most one byte out. */
  method TakeSextet(out: seq<byte>, val: int, valb: int, d: nat, ghost rest: seq<nat>)
      returns (out': seq<byte>, val': int, valb': int)
    requires d < 64 && (valb == -8 || valb == -6 || valb == -4 || valb == -2)
    ensures valb' == -8 || valb' == -6 || valb' == -4 || valb' == -2
    ensures out' + Decoding(valb' + 8, val' % Two(valb' + 8), rest)
         == out + Decoding(valb + 8, val % Two(valb + 8), [d] + rest)
  {
    ReadSextet(val, d, valb + 8);
    DecodingRead(valb + 8, val % Two(valb + 8), d, rest);
    val' := Wrap32(val * 64 + d);
    valb' := valb + 6;
    out' := out;
    if valb' >= 0 {
      out' := EmitByte(out, val', valb', rest);
      valb' := valb' - 8;
    }
  }

  method Base64Decode(text: string) returns (out: seq<byte>)
    requires forall i :: 0 <= i < |text| ==> text[i] as int < 256
    ensures out == Decoded(text)
  {
    var t := BuildTable();
    out := [];
    var val, valb := 0, -8;
    assert text[0..] == text;
    for i := 0 to |text|
      invariant valb == -8 || valb == -6 || valb == -4 || valb == -2
      invariant out + Decoding(valb + 8, val % Two(valb + 8), Read(text[i..])) == Decoded(text)
    {
      var c := text[i] as int;
      assert text[i..][1..] == text[i + 1..];
      if t[c] == -1 {
        assert out + [] == out;
        return;
      }
      out, val, valb := TakeSextet(out, val, valb, t[c], Read(text[i + 1..]));
    }
    assert out + [] == out;
  }

  // ---------- the round trip ----------

  lemma HeadSymbol(ds: seq<nat>, s: string)
    requires Sextets(ds) && ds != [] && s == Spell(ds)
    ensures s != "" && ValueOf(s[0] as int) == Some(ds[0]) && s[1..] == Spell(ds[1..])
  {
    SymbolCode(ds[0]);
  }

  lemma ReadOne(s: string, d: nat, tail: string)
    requires s != "" && ValueOf(s[0] as int) == Some(d)
    ensures Read(s + tail) == [d] + Read(s[1..] + tail)
  {
    assert (s + tail)[1..] == s[1..] + tail;
  }

  lemma {:induction false} ReadSpelled(ds: seq<nat>, tail: string)
    requires Sextets(ds) && (tail == "" || tail[0] == '=')
    ensures Read(Spell(ds) + tail) == ds
  {
    if ds == [] {
      assert Spell(ds) + tail == tail;
    } else {
      var s := Spell(ds);
      HeadSymbol(ds, s);
      ReadOne(s, ds[0], tail);
      ReadSpelled(ds[1..], tail);
    }
  }

  /** One sextet read and one byte put out, with the power of two as a plain number. */
  lemma DecodingByte(n: nat, w: nat, d: nat, ds: seq<nat>, v: nat, p: nat)
    requires 2 <= n < 8 && v == w * 64 + d && p == Two(n - 2)
    ensures Decoding(n, w, [d] + ds) == [v / p % 256] + Decoding(n - 2, v % p, ds)
  {
    DecodingRead(n, w, d, ds);
    DecodingEmit(n + 6, v, ds);
  }

  lemma DecodeFirstTwo(a: byte, b: byte, ds: seq<nat>)
    ensures Decoding(0, 0, [a / 4] + ([a % 4 * 16 + b / 16] + ds)) == [a] + Decoding(4, b / 16, ds)
  {
    var d := a % 4 * 16 + b / 16;
    DecodingRead(0, 0, a / 4, [d] + ds);
    HighByte(a, b);
    DecodingByte(6, a / 4, d, ds, a / 4 * 64 + d, 16);
  }

  lemma HighByte(a: byte, b: byte)
    ensures var w := a / 4 * 64 + (a % 4 * 16 + b / 16);
            w / 16 % 256 == a && w % 16 == b / 16
  {
    assert a / 4 * 64 + (a % 4 * 16 + b / 16) == a * 16 + b / 16;
  }

  lemma DecodeThird(b: byte, c: byte, ds: seq<nat>)
    ensures Decoding(4, b / 16, [b % 16 * 4 + c / 64] + ds) == [b] + Decoding(2, c / 64, ds)
  {
    var d := b % 16 * 4 + c / 64;
    MiddleByte(b, c);
    DecodingByte(4, b / 16, d, ds, b / 16 * 64 + d, 4);
  }

  lemma MiddleByte(b: byte, c: byte)
    ensures var w := b / 16 * 64 + (b % 16 * 4 + c / 64);
            w / 4 % 256 == b && w % 4 == c / 64
  {
    assert b / 16 * 64 + (b % 16 * 4 + c / 64) == b * 4 + c / 64;
  }

  lemma DecodeFourth(c: byte, ds: seq<nat>)
    ensures Decoding(2, c / 64, [c % 64] + ds) == [c] + Decoding(0, 0, ds)
  {
    DecodingByte(2, c / 64, c % 64, ds, c, 1);
  }

  lemma DecodeGroup(a: byte, b: byte, c: byte, ds: seq<nat>)
    ensures Decoding(0, 0, Group(a, b, c) + ds) == [a] + ([b] + ([c] + Decoding(0, 0, ds)))
  {
    var d3 := [c % 64] + ds;
    var d2 := [b % 16 * 4 + c / 64] + d3;
    assert Group(a, b, c) + ds == [a / 4] + ([a % 4 * 16 + b / 16] + d2);
    DecodeFirstTwo(a, b, d2);
    DecodeThird(b, c, d3);
    DecodeFourth(c, ds);
  }

  lemma {:induction false} DecodeGroups(s: seq<byte>)
    ensures Decoding(0, 0, Groups(s)) == s
    decreases |s|
  {
    if |s| >= 3 {
      DecodeGroup(s[0], s[1], s[2], Groups(s[3..]));
      DecodeGroups(s[3..]);
    } else if |s| == 2 {
      DecodeTwoLeft(s[0], s[1]);
    } else if |s| == 1 {
      DecodeOneLeft(s[0]);
    }
  }

  lemma DecodeTwoLeft(a: byte, b: byte)
    ensures Decoding(0, 0, Group(a, b, 0)[..3]) == [a, b]
  {
    assert Group(a, b, 0)[..3] == [a / 4] + ([a % 4 * 16 + b / 16] + ([b % 16 * 4] + []));
    DecodeFirstTwo(a, b, [b % 16 * 4] + []);
    DecodeThird(b, 0, []);
    assert Decoding(2, 0, []) == [];
  }

  lemma DecodeOneLeft(a: byte)
    ensures Decoding(0, 0, Group(a, 0, 0)[..2]) == [a]
  {
    assert Group(a, 0, 0)[..2] == [a / 4] + ([a % 4 * 16] + []);
    DecodeFirstTwo(a, 0, []);
    assert Decoding(4, 0, []) == [];
  }

  /** The server's decoder gives back every byte string the CLI's encoder was given. */
  lemma DecodeEncode(s: seq<byte>)
    ensures Decoded(Encoded(s)) == s
  {
    ReadSpelled(Groups(s), Padding(|Groups(s)|));
    DecodeGroups(s);
  }

  // ---------- the shape of texts ----------

  lemma {:induction false} GroupsLength(s: seq<byte>)
    ensures |Groups(s)| == 4 * (|s| / 3) + if |s| % 3 == 0 then 0 else |s| % 3 + 1
    decreases |s|
  {
    if |s| >= 3 {
      GroupsLength(s[3..]);
    }
  }

  lemma PaddingLength(n: nat)
    ensures |Padding(4 * (n / 3) + if n % 3 == 0 then 0 else n % 3 + 1)| == (3 - n % 3) % 3
    ensures forall k, i :: 0 <= i < |Padding(k)| ==> Padding(k)[i] == '='
  {
    var q, r := n / 3, n % 3;
    assert (4 * q + if r == 0 then 0 else r + 1) % 4 == if r == 0 then 0 else r + 1;
  }

  /** Symbols of the alphabet, then '='. */
  predicate SymbolsThenPadding(text: string, padding: nat) {
    && padding <= |text|
    && (forall i :: 0 <= i < |text| - padding ==> ValueOf(text[i] as int).Some?)
    && (forall i :: |text| - padding <= i < |text| ==> text[i] == '=')
  }

  lemma SpelledThenPadded(ds: seq<nat>, padding: string)
    requires Sextets(ds) && forall i :: 0 <= i < |padding| ==> padding[i] == '='
    ensures SymbolsThenPadding(Spell(ds) + padding, |padding|)
  {
    forall i | 0 <= i < |ds|
      ensures ValueOf(Spell(ds)[i] as int).Some?
    {
      SymbolCode(ds[i]);
    }
  }

  /** An encoding has four symbols for every three bytes begun, the last one or two of them '=' as needed. */
  lemma EncodedShape(s: seq<byte>)
    ensures |Encoded(s)| == 4 * ((|s| + 2) / 3) && SymbolsThenPadding(Encoded(s), (3 - |s| % 3) % 3)
  {
    GroupsLength(s);
    PaddingLength(|s|);
    WholeFours(|s|);
    SpelledThenPadded(Groups(s), Padding(|Groups(s)|));
  }

  lemma WholeFours(n: nat)
    ensures 4 * (n / 3) + (if n % 3 == 0 then 0 else n % 3 + 1) + (3 - n % 3) % 3 == 4 * ((n + 2) / 3)
  {
    var q, r := n / 3, n % 3;
    assert n == 3 * q + r;
    assert (n + 2) / 3 == if r == 0 then q else q + 1;
  }

  /** Decoding ends at the first foreign symbol, whatever follows it. */
  lemma {:induction false} ForeignEnds(a: string, c: char, b: string)
    requires ValueOf(c as int).None?
    ensures Read(a + [c] + b) == Read(a) && Decoded(a + [c] + b) == Decoded(a)
  {
    if a == "" {
      assert ("" + [c] + b)[0] == c;
    } else {
      assert (a + [c] + b)[1..] == a[1..] + [c] + b;
      ForeignEnds(a[1..], c, b);
    }
  }

  lemma FirstSextets(p: nat, q: nat)
    requires p < 64 && q < 64
    ensures p * 4 + q / 16 < 256 && (p * 4 + q / 16) / 4 == p && (p * 4 + q / 16) % 4 * 16 == q / 16 * 16
  {
  }

  lemma MiddleSextets(q: nat, r: nat)
    requires q < 64 && r < 64
    ensures q % 16 * 16 + r / 4 < 256 && (q % 16 * 16 + r / 4) / 16 == q % 16
    ensures (q % 16 * 16 + r / 4) % 16 * 4 == r / 4 * 4
  {
  }

  lemma LastSextets(r: nat, t: nat)
    requires r < 64 && t < 64
    ensures r % 4 * 64 + t < 256 && (r % 4 * 64 + t) / 64 == r % 4 && (r % 4 * 64 + t) % 64 == t
  {
  }

  lemma FourSextets(p: nat, q: nat, r: nat, t: nat)
    requires p < 64 && q < 64 && r < 64 && t < 64
    ensures p * 4 + q / 16 < 256 && q % 16 * 16 + r / 4 < 256 && r % 4 * 64 + t < 256
    ensures Group(p * 4 + q / 16, q % 16 * 16 + r / 4, r % 4 * 64 + t) == [p, q, r, t]
  {
    FirstSextets(p, q);
    MiddleSextets(q, r);
    LastSextets(r, t);
  }

  /** Any four sextets at a time are those of the three bytes they decode to. */
  lemma {:induction false} SextetsReencode(ds: seq<nat>)
    requires Sextets(ds) && |ds| % 4 == 0
    ensures Groups(Decoding(0, 0, ds)) == ds
    decreases |ds|
  {
    if ds != [] {
      var rest := ds[4..];
      SextetsReencode(rest);
      FourReencode(ds[0], ds[1], ds[2], ds[3], rest);
      assert ds == [ds[0], ds[1], ds[2], ds[3]] + rest;
    }
  }

  lemma FourReencode(p: nat, q: nat, r: nat, t: nat, rest: seq<nat>)
    requires p < 64 && q < 64 && r < 64 && t < 64
    ensures Groups(Decoding(0, 0, [p, q, r, t] + rest)) == [p, q, r, t] + Groups(Decoding(0, 0, rest))
  {
    FourSextets(p, q, r, t);
    var a, b, c := p * 4 + q / 16, q % 16 * 16 + r / 4, r % 4 * 64 + t;
    DecodeGroup(a, b, c, rest);
    ThreeInFront(a, b, c, Decoding(0, 0, rest));
  }

  lemma ThreeInFront(a: byte, b: byte, c: byte, rest: seq<byte>)
    ensures Groups([a] + ([b] + ([c] + rest))) == Group(a, b, c) + Groups(rest)
  {
    var s := [a] + ([b] + ([c] + rest));
    assert s[3..] == rest;
  }

  lemma ReadWhole(ds: seq<nat>)
    requires Sextets(ds)
    ensures Read(Spell(ds)) == ds
  {
    ReadSpelled(ds, "");
    assert Spell(ds) + "" == Spell(ds);
  }

  /** Every text of symbols whose length is a multiple of four is the encoding of what it decodes to. */
  lemma EncodeDecode(ds: seq<nat>)
    requires Sextets(ds) && |ds| % 4 == 0
    ensures Encoded(Decoded(Spell(ds))) == Spell(ds)
  {
    ReadWhole(ds);
    SextetsReencode(ds);
    assert Padding(|ds|) == "";
  }
}
